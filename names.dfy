/** `name_duplicated`: a single pass over a list of names that gives every
    occurrence of a repeated name a numeric suffix. */
module Names {
  import opened Seqs
  import opened Builtins

  /** Which occurrence of its name the element at position `i` is, counting
      from 1. */
  function Occurrence(x: seq<string>, i: nat): (n: nat)
    requires i < |x|
    ensures 1 <= n <= Count(x, x[i])
  {
    assert x[..i + 1] == x[..i] + [x[i]];
    CountConcat(x[..i], [x[i]], x[i]);
    assert x == x[..i + 1] + x[i + 1..];
    CountConcat(x[..i + 1], x[i + 1..], x[i]);
    Count(x[..i + 1], x[i])
  }

  /** `f"{item}_{n}"`. */
  function Suffixed(item: string, n: nat): (r: string)
    ensures item < r && r[|item|] == '_'
    ensures r[|item| + 1..] == NatToString(n)
  {
    item + "_" + NatToString(n)
  }

  /** A later occurrence of a name has a larger occurrence number. */
  lemma OccurrenceIncreases(x: seq<string>, i: nat, j: nat)
    requires i < j < |x| && x[i] == x[j]
    ensures Occurrence(x, i) < Occurrence(x, j)
  {
    assert x[..j + 1] == x[..i + 1] + x[i + 1..j + 1];
    CountConcat(x[..i + 1], x[i + 1..j + 1], x[j]);
    assert x[j] in x[i + 1..j + 1] by {
      assert x[i + 1..j + 1][j - i - 1] == x[j];
    }
  }

  /** Different occurrence numbers give different suffixed names. */
  lemma SuffixedInjective(item: string, m: nat, n: nat)
    requires m != n
    ensures Suffixed(item, m) != Suffixed(item, n)
  {
    assert Suffixed(item, m)[|item| + 1..] == NatToString(m);
    assert Suffixed(item, n)[|item| + 1..] == NatToString(n);
    if NatToString(m) == NatToString(n) {
      NatToStringInjective(m, n);
    }
  }

  /** The label `name_duplicated` gives the element at position `i`: the name
      itself when it occurs once in `x`, and otherwise the name followed by
      `_` and the number of this occurrence. */
  function Label(x: seq<string>, i: nat): string
    requires i < |x|
  {
    if Count(x, x[i]) > 1 then Suffixed(x[i], Occurrence(x, i)) else x[i]
  }

  /** Every label starts with the name it labels. */
  lemma LabelHasPrefix(x: seq<string>, i: nat)
    requires i < |x|
    ensures x[i] <= Label(x, i)
  {
  }

  /** Two occurrences of the same name get different labels. */
  lemma LabelsDistinct(x: seq<string>, i: nat, j: nat)
    requires i < j < |x| && x[i] == x[j]
    ensures Count(x, x[i]) > 1
    ensures Label(x, i) != Label(x, j)
  {
    OccurrenceIncreases(x, i, j);
    SuffixedInjective(x[i], Occurrence(x, i), Occurrence(x, j));
  }

  /** `name_duplicated`: one label per name, in order; a name that occurs
      once is kept, the `j`-th occurrence of a name that occurs more than
      once becomes `name_j`, and occurrences of one name never share a
      label. The output as a whole need not be free of repeats (see
      `NotGloballyUnique`). */
  method NameDuplicated(x: seq<string>) returns (result: seq<string>)
    ensures |result| == |x|
    ensures forall i :: 0 <= i < |x| ==> result[i] == Label(x, i)
    ensures forall i :: 0 <= i < |x| && Count(x, x[i]) == 1 ==> result[i] == x[i]
    ensures forall i :: 0 <= i < |x| && Count(x, x[i]) > 1 ==> result[i] == Suffixed(x[i], Occurrence(x, i))
    ensures forall i :: 0 <= i < |x| ==> x[i] <= result[i]
    ensures forall i, j :: 0 <= i < j < |x| && x[i] == x[j] ==> result[i] != result[j]
  {
    var counts: map<string, nat> := map[];
    result := [];
    var i := 0;
    while i < |x|
      invariant 0 <= i <= |x|
      invariant Tallies(counts, x[..i])
      invariant result == Labels(x, i)
    {
      var item := x[i];
      ghost var before := counts;
      var tag: string;
      if item in counts {
        counts := counts[item := counts[item] + 1];
        tag := Suffixed(item, counts[item]);
      } else {
        counts := counts[item := 1];
        tag := if Count(x, item) > 1 then Suffixed(item, counts[item]) else item;
      }
      LabelStep(x, i, before, counts, tag);
      result := result + [tag];
      i := i + 1;
    }
    LabelsIndex(x, |x|);
    LabelsFacts(x, result);
  }

  /** The labels of the first `n` elements. */
  ghost function Labels(x: seq<string>, n: nat): seq<string>
    requires n <= |x|
  {
    if n == 0 then [] else Labels(x, n - 1) + [Label(x, n - 1)]
  }

  lemma {:induction false} LabelsIndex(x: seq<string>, n: nat)
    requires n <= |x|
    ensures |Labels(x, n)| == n
    ensures forall k :: 0 <= k < n ==> Labels(x, n)[k] == Label(x, k)
  {
    if n > 0 {
      LabelsIndex(x, n - 1);
      var before := Labels(x, n - 1);
      assert Labels(x, n) == before + [Label(x, n - 1)];
      assert forall k :: 0 <= k < n - 1 ==> (before + [Label(x, n - 1)])[k] == before[k];
    }
  }

  /** `counts` maps exactly the names seen in `prefix` to their number of
      occurrences there. */
  ghost predicate Tallies(counts: map<string, nat>, prefix: seq<string>)
  {
    && (forall s :: s in counts <==> s in prefix)
    && (forall s :: s in counts ==> counts[s] == Count(prefix, s))
  }

  /** One iteration of the loop of `name_duplicated`: from the counts of the
      prefix `x[..i]`, the updated counts are those of `x[..i + 1]` and the
      label appended is the label of `x[i]`. */
  lemma LabelStep(x: seq<string>, i: nat, counts: map<string, nat>, next: map<string, nat>, tag: string)
    requires i < |x| && Tallies(counts, x[..i])
    requires next == counts[x[i] := if x[i] in counts then counts[x[i]] + 1 else 1]
    requires tag == if x[i] in counts || Count(x, x[i]) > 1 then Suffixed(x[i], next[x[i]]) else x[i]
    ensures Tallies(next, x[..i + 1])
    ensures tag == Label(x, i)
  {
    CountStep(x, i);
    TalliesStep(x, i, counts);
    var item := x[i];
    if item in counts {
      assert Occurrence(x, i) == counts[item] + 1 >= 2;
    } else {
      assert Count(x[..i], item) == 0;
      assert Occurrence(x, i) == 1;
    }
  }

  lemma TalliesStep(x: seq<string>, i: nat, counts: map<string, nat>)
    requires i < |x| && Tallies(counts, x[..i])
    ensures Tallies(counts[x[i] := if x[i] in counts then counts[x[i]] + 1 else 1], x[..i + 1])
  {
    CountStep(x, i);
    var item := x[i];
    var next := counts[item := if item in counts then counts[item] + 1 else 1];
    if item !in counts {
      assert Count(x[..i], item) == 0;
    }
    forall s | s in next
      ensures next[s] == Count(x[..i + 1], s)
    {
      if s != item {
        assert next[s] == counts[s];
      }
    }
  }

  /** What the labels of a whole list satisfy. */
  lemma LabelsFacts(x: seq<string>, labels: seq<string>)
    requires |labels| == |x| && forall i :: 0 <= i < |x| ==> labels[i] == Label(x, i)
    ensures forall i :: 0 <= i < |x| && Count(x, x[i]) == 1 ==> labels[i] == x[i]
    ensures forall i :: 0 <= i < |x| && Count(x, x[i]) > 1 ==> labels[i] == Suffixed(x[i], Occurrence(x, i))
    ensures forall i :: 0 <= i < |x| ==> x[i] <= labels[i]
    ensures forall i, j :: 0 <= i < j < |x| && x[i] == x[j] ==> labels[i] != labels[j]
  {
    forall i | 0 <= i < |x|
      ensures x[i] <= labels[i]
    {
      LabelHasPrefix(x, i);
    }
    forall i, j | 0 <= i < j < |x| && x[i] == x[j]
      ensures labels[i] != labels[j]
    {
      LabelsDistinct(x, i, j);
    }
  }

  /** How the occurrence counts move when the prefix grows by one element. */
  lemma CountStep(x: seq<string>, i: nat)
    requires i < |x|
    ensures x[..i + 1] == x[..i] + [x[i]]
    ensures forall s :: Count(x[..i + 1], s) == Count(x[..i], s) + (if s == x[i] then 1 else 0)
    ensures forall s :: s in x[..i + 1] <==> s in x[..i] || s == x[i]
  {
    assert x[..i + 1] == x[..i] + [x[i]];
    forall s
      ensures Count(x[..i + 1], s) == Count(x[..i], s) + (if s == x[i] then 1 else 0)
    {
      CountConcat(x[..i], [x[i]], s);
    }
  }

  /** `Count` of one name in a list, one element at a time. */
  lemma CountCons(h: string, t: seq<string>, s: string)
    ensures Count([h] + t, s) == (if h == s then 1 else 0) + Count(t, s)
  {
    assert ([h] + t)[1..] == t;
  }

  lemma SuffixedSmall(item: string)
    ensures Suffixed(item, 1) == item + "_1" && Suffixed(item, 2) == item + "_2"
  {
    assert NatToString(1) == "1" && NatToString(2) == "2";
  }

  lemma CountFive(a: string, b: string, c: string, s: string)
    ensures Count([a, b, a, c, b], s)
         == 2 * (if a == s then 1 else 0) + 2 * (if b == s then 1 else 0) + (if c == s then 1 else 0)
  {
    assert [a, b, a, c, b] == [a] + ([b] + ([a] + ([c] + [b])));
    CountCons(a, [b] + ([a] + ([c] + [b])), s);
    CountCons(b, [a] + ([c] + [b]), s);
    CountCons(a, [c] + [b], s);
    CountCons(c, [b], s);
    CountCons(b, [], s);
  }

  /** The labels of the example of the function's documentation, for any
      three different names `a`, `b`, `c` in the order `a b a c b`. */
  lemma DocstringLabelPattern(a: string, b: string, c: string)
    requires a != b && a != c && b != c
    ensures Label([a, b, a, c, b], 0) == a + "_1"
    ensures Label([a, b, a, c, b], 1) == b + "_1"
    ensures Label([a, b, a, c, b], 2) == a + "_2"
    ensures Label([a, b, a, c, b], 3) == c
    ensures Label([a, b, a, c, b], 4) == b + "_2"
  {
    FivePattern(a, b, c);
    SuffixedSmall(a);
    SuffixedSmall(b);
  }

  /** Occurrence counts and numbers in the list `[a, b, a, c, b]`. */
  lemma FivePattern(a: string, b: string, c: string)
    requires a != b && a != c && b != c
    ensures Count([a, b, a, c, b], a) == 2 && Count([a, b, a, c, b], b) == 2 && Count([a, b, a, c, b], c) == 1
    ensures Occurrence([a, b, a, c, b], 0) == 1 && Occurrence([a, b, a, c, b], 1) == 1
    ensures Occurrence([a, b, a, c, b], 2) == 2 && Occurrence([a, b, a, c, b], 4) == 2
  {
    var x := [a, b, a, c, b];
    CountFive(a, b, c, a);
    CountFive(a, b, c, b);
    CountFive(a, b, c, c);
    assert x[..1] == [a] + [];
    assert x[..2] == [a] + [b];
    assert x[..3] == [a] + ([b] + [a]);
    assert x[..5] == x;
    CountCons(a, [], a);
    CountCons(a, [b], b);
    CountCons(b, [], b);
    CountCons(a, [b] + [a], a);
    CountCons(b, [a], a);
  }

  lemma DocstringLabels()
    ensures "apple" + "_1" == "apple_1" && "apple" + "_2" == "apple_2"
    ensures "orange" + "_1" == "orange_1" && "orange" + "_2" == "orange_2"
  {
  }

  /** The example of the function's documentation: the labels of
      `["apple", "orange", "apple", "banana", "orange"]`. */
  lemma DocstringExample()
    ensures Label(["apple", "orange", "apple", "banana", "orange"], 0) == "apple_1"
    ensures Label(["apple", "orange", "apple", "banana", "orange"], 1) == "orange_1"
    ensures Label(["apple", "orange", "apple", "banana", "orange"], 2) == "apple_2"
    ensures Label(["apple", "orange", "apple", "banana", "orange"], 3) == "banana"
    ensures Label(["apple", "orange", "apple", "banana", "orange"], 4) == "orange_2"
  {
    DocstringLabelPattern("apple", "orange", "banana");
    DocstringLabels();
  }

  /** Suffixed names can collide with a name already in the input: the
      labels of `[a, a, a + "_1"]` hold `a_1` twice. */
  lemma NotGloballyUnique(a: string)
    ensures Label([a, a, a + "_1"], 0) == a + "_1"
    ensures Label([a, a, a + "_1"], 1) == a + "_2"
    ensures Label([a, a, a + "_1"], 2) == a + "_1"
  {
    var b := a + "_1";
    var x := [a, a, b];
    assert a != b by { assert |a| != |b|; }
    assert x == [a] + ([a] + [b]);
    assert x[..1] == [a] + [] && x[..2] == [a] + [a];
    CountCons(a, [a] + [b], a);
    CountCons(a, [b], a);
    CountCons(b, [], a);
    CountCons(a, [a] + [b], b);
    CountCons(a, [b], b);
    CountCons(b, [], b);
    CountCons(a, [a], a);
    CountCons(a, [], a);
    SuffixedSmall(a);
  }
}
