/** Encoding a text with a code table, and greedy decoding with the reverse
    table. */
module Codec {
  import opened Results
  import opened Bits
  import opened Codes

  /** The codes of the characters of `text`, in order, joined. */
  function Encode(text: string, codes: map<char, Bits>): Bits
    requires forall i :: 0 <= i < |text| ==> text[i] in codes
  {
    if |text| == 0 then [] else codes[text[0]] + Encode(text[1..], codes)
  }

  /** The encoding loop. It succeeds exactly when every character has a
      code, and then yields the joined codes; otherwise the lookup of the
      first character without a code fails. */
  function GetEncodedText(text: string, codes: map<char, Bits>): (r: Result<Bits>)
    ensures r.Success? <==> forall i :: 0 <= i < |text| ==> text[i] in codes
    ensures r.Success? ==> r.value == Encode(text, codes)
    ensures r.Failure? ==>
      (exists i :: && 0 <= i < |text| && text[i] !in codes && r.error == MissingCode(text[i])
                   && (forall k :: 0 <= k < i ==> text[k] in codes))
  {
    if |text| == 0 then Success([])
    else if text[0] !in codes then Failure(MissingCode(text[0]))
    else
      match GetEncodedText(text[1..], codes)
      case Success(rest) => Success(codes[text[0]] + rest)
      case Failure(e) =>
        assert forall i :: 1 <= i < |text| ==> text[1..][i - 1] == text[i];
        Failure(e)
  }

  /** The sum of the code lengths of the characters of `text`. */
  function CodeLengths(text: string, codes: map<char, Bits>): nat
    requires forall i :: 0 <= i < |text| ==> text[i] in codes
  {
    if |text| == 0 then 0
    else CodeLengths(text[..|text| - 1], codes) + |codes[text[|text| - 1]]|
  }

  /** Appending a character appends its code, as each turn of the loop does. */
  lemma {:induction false} EncodeAppend(text: string, c: char, codes: map<char, Bits>)
    requires forall i :: 0 <= i < |text| ==> text[i] in codes
    requires c in codes
    ensures Encode(text + [c], codes) == Encode(text, codes) + codes[c]
  {
    if |text| == 0 {
      assert text + [c] == [c];
    } else {
      assert (text + [c])[1..] == text[1..] + [c];
      EncodeAppend(text[1..], c, codes);
    }
  }

  /** The encoded text is as long as the sum of its characters' code lengths. */
  lemma {:induction false} EncodedLength(text: string, codes: map<char, Bits>)
    requires forall i :: 0 <= i < |text| ==> text[i] in codes
    ensures |Encode(text, codes)| == CodeLengths(text, codes)
  {
    if |text| > 0 {
      var init := text[..|text| - 1];
      var c := text[|text| - 1];
      EncodedLength(init, codes);
      EncodeAppend(init, c, codes);
      assert init + [c] == text;
    }
  }

  /** The decoding loop with its scratch buffer `curr`: each bit is appended
      to the buffer; when the buffer is a key of the reverse table its
      symbol is emitted and the buffer is emptied. Bits still in the buffer
      when the input ends are dropped. Each emitted symbol consumes at least
      one bit and is a value of the reverse table. */
  function DecodeFrom(bits: Bits, reverse: map<Bits, char>, curr: Bits): (s: string)
    ensures |s| <= |bits|
    ensures forall i :: 0 <= i < |s| ==> s[i] in reverse.Values
    decreases |bits|
  {
    if |bits| == 0 then []
    else
      var next := curr + [bits[0]];
      if next in reverse then [reverse[next]] + DecodeFrom(bits[1..], reverse, [])
      else DecodeFrom(bits[1..], reverse, next)
  }

  /** Decoding starts with an empty buffer. Each emitted symbol consumes
      at least one bit and is a value of the reverse table. */
  function DecodeText(bits: Bits, reverse: map<Bits, char>): (s: string)
    ensures |s| <= |bits|
    ensures forall i :: 0 <= i < |s| ==> s[i] in reverse.Values
  {
    DecodeFrom(bits, reverse, [])
  }

  /** With prefix-free keys, once the buffer holds the first `k` bits of a
      key `w`, the decoder reads the rest of `w`, emits its symbol and
      starts afresh on what follows. */
  lemma {:induction false} DecodeOneCode(w: Bits, k: nat, rest: Bits, reverse: map<Bits, char>)
    requires w in reverse && PrefixFree(reverse.Keys)
    requires k < |w|
    ensures DecodeFrom(w[k..] + rest, reverse, w[..k]) == [reverse[w]] + DecodeFrom(rest, reverse, [])
    decreases |w| - k
  {
    var bits := w[k..] + rest;
    assert bits[0] == w[k];
    assert w[..k] + [w[k]] == w[..k + 1];
    if k + 1 == |w| {
      assert w[..k + 1] == w;
      assert bits[1..] == rest;
    } else {
      assert w[..k + 1] !in reverse by {
        assert IsPrefix(w[..k + 1], w) && w[..k + 1] != w;
      }
      assert bits[1..] == w[k + 1..] + rest;
      DecodeOneCode(w, k + 1, rest, reverse);
    }
  }

  /** Decoding an encoded text followed by more bits yields the text,
      then whatever the extra bits decode to. */
  lemma {:induction false} DecodeAfterEncode(text: string, ct: CodeTables, rest: Bits)
    requires Decodable(ct)
    requires forall i :: 0 <= i < |text| ==> text[i] in ct.codes
    ensures DecodeFrom(Encode(text, ct.codes) + rest, ct.reverse, [])
         == text + DecodeFrom(rest, ct.reverse, [])
  {
    if |text| == 0 {
      assert Encode(text, ct.codes) + rest == rest;
    } else {
      var tail := text[1..];
      var after := DecodeFrom(rest, ct.reverse, []);
      var next := Encode(tail, ct.codes) + rest;
      assert DecodeFrom(next, ct.reverse, []) == tail + after by {
        assert forall i :: 0 <= i < |tail| ==> tail[i] == text[i + 1];
        DecodeAfterEncode(tail, ct, rest);
      }
      assert DecodeFrom(Encode(text, ct.codes) + rest, ct.reverse, [])
          == [text[0]] + DecodeFrom(next, ct.reverse, []) by {
        DecodeFirstCode(text, ct, rest);
      }
      ConsAppend(text, after);
    }
  }

  lemma ConsAppend(text: string, after: string)
    requires |text| > 0
    ensures [text[0]] + (text[1..] + after) == text + after
  {
    assert text == [text[0]] + text[1..];
  }

  /** The first code of a non-empty encoded text decodes to its first
      character, and decoding resumes on the encoding of the rest. */
  lemma DecodeFirstCode(text: string, ct: CodeTables, rest: Bits)
    requires Decodable(ct)
    requires |text| > 0
    requires forall i :: 0 <= i < |text| ==> text[i] in ct.codes
    ensures DecodeFrom(Encode(text, ct.codes) + rest, ct.reverse, [])
         == [text[0]] + DecodeFrom(Encode(text[1..], ct.codes) + rest, ct.reverse, [])
  {
    var w := ct.codes[text[0]];
    assert |w| > 0 && w in ct.reverse && ct.reverse[w] == text[0];
    var tail := Encode(text[1..], ct.codes) + rest;
    assert Encode(text, ct.codes) + rest == w[0..] + tail;
    assert w[..0] == [];
    DecodeOneCode(w, 0, tail, ct.reverse);
  }

  /** Greedy decoding inverts encoding, for tables that are valid. */
  lemma {:induction false} DecodeRoundTrip(text: string, ct: CodeTables)
    requires Decodable(ct)
    requires forall i :: 0 <= i < |text| ==> text[i] in ct.codes
    ensures DecodeText(Encode(text, ct.codes), ct.reverse) == text
  {
    DecodeAfterEncode(text, ct, []);
    assert Encode(text, ct.codes) + [] == Encode(text, ct.codes);
  }

  /** A buffer that never matches a key yields nothing. */
  lemma {:induction false} UnmatchedYieldsNothing(tail: Bits, j: nat, reverse: map<Bits, char>)
    requires j <= |tail|
    requires forall k :: 1 <= k <= |tail| ==> tail[..k] !in reverse
    ensures DecodeFrom(tail[j..], reverse, tail[..j]) == []
    decreases |tail| - j
  {
    if j < |tail| {
      assert tail[..j] + [tail[j..][0]] == tail[..j + 1];
      assert tail[j..][1..] == tail[j + 1..];
      UnmatchedYieldsNothing(tail, j + 1, reverse);
    }
  }

  /** Bits after the last complete code that never complete a key are
      dropped silently: the decoded text is the same as without them. */
  lemma {:induction false} UnmatchedTailDropped(text: string, ct: CodeTables, tail: Bits)
    requires Decodable(ct)
    requires forall i :: 0 <= i < |text| ==> text[i] in ct.codes
    requires forall k :: 1 <= k <= |tail| ==> tail[..k] !in ct.reverse
    ensures DecodeText(Encode(text, ct.codes) + tail, ct.reverse) == text
  {
    DecodeAfterEncode(text, ct, tail);
    UnmatchedYieldsNothing(tail, 0, ct.reverse);
    assert tail[0..] == tail && tail[..0] == [];
  }
}
