/** Symbol counting: the first stage of compression. */
module Frequency {

  /** The source's frequency dictionary. A dictionary remembers the order in
      which its keys were first inserted, and that order decides the order in
      which leaves enter the heap, so it is kept next to the counts. */
  datatype FreqDict = FreqDict(order: seq<char>, count: map<char, nat>)

  ghost predicate Distinct<T>(s: seq<T>) {
    forall i, j :: 0 <= i < j < |s| ==> s[i] != s[j]
  }

  /** The keys of the dictionary, in insertion order, each once. */
  ghost predicate Valid(d: FreqDict) {
    && Distinct(d.order)
    && (forall c :: c in d.order <==> c in d.count)
  }

  /** Counts every symbol of `text`: the keys are exactly the symbols that
      occur, each once, and each count is the number of occurrences. The
      keys are kept in order of first occurrence (`OrderIsFirstOccurrence`). */
  function MakeFrequencyDic(text: string): (d: FreqDict)
    ensures Valid(d)
    ensures forall c :: c in d.count <==> c in text
    ensures forall c :: c in d.count ==> d.count[c] == multiset(text)[c]
    decreases |text|
  {
    if |text| == 0 then FreqDict([], map[])
    else
      var init := text[..|text| - 1];
      var c := text[|text| - 1];
      assert text == init + [c];
      var d := MakeFrequencyDic(init);
      if c !in d.count then FreqDict(d.order + [c], d.count[c := 1])
      else FreqDict(d.order, d.count[c := d.count[c] + 1])
  }

  /** Some prefix of `text` contains `a` but not `b`: `a` occurs first. */
  ghost predicate OccursBefore(text: string, a: char, b: char) {
    exists k :: 0 <= k <= |text| && a in text[..k] && b !in text[..k]
  }

  /** The keys are listed in order of first occurrence in the text, as the
      dictionary inserts each symbol when it is first seen. */
  lemma {:induction false} OrderIsFirstOccurrence(text: string)
    ensures forall i, j :: 0 <= i < j < |MakeFrequencyDic(text).order| ==>
      OccursBefore(text, MakeFrequencyDic(text).order[i], MakeFrequencyDic(text).order[j])
  {
    if |text| > 0 {
      var init := text[..|text| - 1];
      var c := text[|text| - 1];
      assert text == init + [c];
      var d := MakeFrequencyDic(init);
      OrderIsFirstOccurrence(init);
      var o := MakeFrequencyDic(text).order;
      forall i, j | 0 <= i < j < |o| ensures OccursBefore(text, o[i], o[j]) {
        if j < |d.order| {
          OccursBeforeExtends(init, c, d.order[i], d.order[j]);
        } else {
          OccursBeforeNew(init, c, d.order[i]);
        }
      }
    }
  }

  /** Appending a character keeps an earlier first occurrence earlier. */
  lemma OccursBeforeExtends(text: string, c: char, a: char, b: char)
    requires OccursBefore(text, a, b)
    ensures OccursBefore(text + [c], a, b)
  {
    var k :| 0 <= k <= |text| && a in text[..k] && b !in text[..k];
    assert (text + [c])[..k] == text[..k];
  }

  /** A character that occurs in `text` occurs before one that first
      appears at its end. */
  lemma OccursBeforeNew(text: string, c: char, a: char)
    requires a in text && c !in text
    ensures OccursBefore(text + [c], a, c)
  {
    assert (text + [c])[..|text|] == text;
  }

  /** The sum of the counts of `keys`. */
  function SumCounts(keys: seq<char>, count: map<char, nat>): nat
    requires forall k :: k in keys ==> k in count
  {
    if |keys| == 0 then 0
    else SumCounts(keys[..|keys| - 1], count) + count[keys[|keys| - 1]]
  }

  lemma {:induction false} SumCountsUpdateOutside(keys: seq<char>, count: map<char, nat>, c: char, v: nat)
    requires forall k :: k in keys ==> k in count
    requires c !in keys
    ensures SumCounts(keys, count[c := v]) == SumCounts(keys, count)
  {
    if |keys| > 0 {
      SumCountsUpdateOutside(keys[..|keys| - 1], count, c, v);
    }
  }

  lemma {:induction false} SumCountsIncrement(keys: seq<char>, count: map<char, nat>, c: char)
    requires forall k :: k in keys ==> k in count
    requires Distinct(keys) && c in keys
    ensures SumCounts(keys, count[c := count[c] + 1]) == SumCounts(keys, count) + 1
  {
    var init := keys[..|keys| - 1];
    if keys[|keys| - 1] == c {
      assert c !in init by {
        forall i | 0 <= i < |init| ensures init[i] != c {
          assert init[i] == keys[i];
        }
      }
      SumCountsUpdateOutside(init, count, c, count[c] + 1);
    } else {
      assert c in init by {
        var i :| 0 <= i < |keys| && keys[i] == c;
        assert init[i] == c;
      }
      SumCountsIncrement(init, count, c);
    }
  }

  /** The counts add up to the length of the text. */
  lemma {:induction false} CountsSumToLength(text: string)
    ensures SumCounts(MakeFrequencyDic(text).order, MakeFrequencyDic(text).count) == |text|
  {
    if |text| > 0 {
      var init := text[..|text| - 1];
      var c := text[|text| - 1];
      var d := MakeFrequencyDic(init);
      CountsSumToLength(init);
      if c !in d.count {
        SumCountsUpdateOutside(d.order, d.count, c, 1);
        assert (d.order + [c])[..|d.order|] == d.order;
      } else {
        SumCountsIncrement(d.order, d.count, c);
      }
    }
  }
}
