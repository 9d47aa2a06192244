/** `Array.prototype.join` on arrays of strings. */
module Strings {

  /** The elements with `sep` between each adjacent pair; "" for no elements. It starts with the
      first element. */
  function Join(xs: seq<string>, sep: string): (r: string)
    ensures |xs| == 0 ==> r == ""
    ensures |xs| > 0 ==> xs[0] <= r
    decreases |xs|
  {
    if |xs| == 0 then ""
    else if |xs| == 1 then xs[0]
    else xs[0] + sep + Join(xs[1..], sep)
  }

  /** The total length of the strings in `xs`. */
  function TotalLength(xs: seq<string>): (n: nat)
    decreases |xs|
  {
    if |xs| == 0 then 0 else |xs[0]| + TotalLength(xs[1..])
  }

  /** Where the `i`-th element starts in the joined string. */
  function Offset(xs: seq<string>, sep: string, i: nat): (n: nat)
    requires i <= |xs|
    decreases i
  {
    if i == 0 then 0 else Offset(xs, sep, i - 1) + |xs[i - 1]| + |sep|
  }

  /** The joined string holds the elements and one separator between each adjacent pair. */
  lemma {:induction false} JoinLength(xs: seq<string>, sep: string)
    requires |xs| > 0
    ensures |Join(xs, sep)| == TotalLength(xs) + |sep| * (|xs| - 1)
    decreases |xs|
  {
    if |xs| > 1 {
      JoinLength(xs[1..], sep);
      assert |Join(xs, sep)| == |xs[0]| + |sep| + |Join(xs[1..], sep)|;
    }
  }

  lemma {:induction false} OffsetOfTail(xs: seq<string>, sep: string, i: nat)
    requires 0 < i <= |xs|
    ensures Offset(xs, sep, i) == |xs[0]| + |sep| + Offset(xs[1..], sep, i - 1)
    decreases i
  {
    if i > 1 {
      OffsetOfTail(xs, sep, i - 1);
    }
  }

  // The join of two or more elements, one step unfolded.
  lemma JoinUnfold(xs: seq<string>, sep: string)
    requires |xs| > 1
    ensures Join(xs, sep) == (xs[0] + sep) + Join(xs[1..], sep)
  {
  }

  // A slice of the part after a prefix, seen in the whole.
  lemma SliceAfter(r: string, p: string, t: string, a: nat, b: nat, x: string)
    requires r == p + t && a <= b <= |t| && t[a..b] == x
    ensures |p| + b <= |r| && r[|p| + a..|p| + b] == x
  {
    assert r[|p| + a..|p| + b] == t[a..b];
  }

  // One step of JoinAt: an element placed in the join of the tail is placed in the whole join.
  lemma JoinAtStep(xs: seq<string>, sep: string, i: nat, x: string)
    requires 0 < i < |xs| && x == xs[i]
    requires Offset(xs[1..], sep, i - 1) + |x| <= |Join(xs[1..], sep)|
    requires Join(xs[1..], sep)[Offset(xs[1..], sep, i - 1)..Offset(xs[1..], sep, i - 1) + |x|] == x
    ensures Offset(xs, sep, i) + |x| <= |Join(xs, sep)|
    ensures Join(xs, sep)[Offset(xs, sep, i)..Offset(xs, sep, i) + |x|] == x
  {
    OffsetOfTail(xs, sep, i);
    JoinUnfold(xs, sep);
    var o := Offset(xs[1..], sep, i - 1);
    SliceAfter(Join(xs, sep), xs[0] + sep, Join(xs[1..], sep), o, o + |x|, x);
  }

  /** Each element stands, unchanged, at its offset: the join keeps every element and their order. */
  lemma {:induction false} JoinAt(xs: seq<string>, sep: string, i: nat)
    requires i < |xs|
    ensures Offset(xs, sep, i) + |xs[i]| <= |Join(xs, sep)|
    ensures Join(xs, sep)[Offset(xs, sep, i)..Offset(xs, sep, i) + |xs[i]|] == xs[i]
    decreases |xs|
  {
    if |xs| == 1 {
    } else if i == 0 {
      JoinUnfold(xs, sep);
    } else {
      JoinAt(xs[1..], sep, i - 1);
      JoinAtStep(xs, sep, i, xs[1..][i - 1]);
    }
  }

  // The first gap: the separator follows the first element.
  lemma JoinSeparatorAtHead(xs: seq<string>, sep: string)
    requires 1 < |xs|
    ensures Offset(xs, sep, 1) <= |Join(xs, sep)|
    ensures Join(xs, sep)[|xs[0]|..Offset(xs, sep, 1)] == sep
  {
    JoinUnfold(xs, sep);
    assert Offset(xs, sep, 1) == |xs[0]| + |sep|;
    SliceAfter(Join(xs, sep), xs[0], sep + Join(xs[1..], sep), 0, |sep|, sep);
  }

  // One step of JoinSeparatorAt: a gap in the join of the tail is a gap in the whole join.
  lemma JoinSeparatorAtStep(xs: seq<string>, sep: string, i: nat, x: string)
    requires 0 < i && i + 1 < |xs| && x == xs[i]
    requires Offset(xs[1..], sep, i) <= |Join(xs[1..], sep)|
    requires Join(xs[1..], sep)[Offset(xs[1..], sep, i - 1) + |x|..Offset(xs[1..], sep, i)] == sep
    ensures Offset(xs, sep, i + 1) <= |Join(xs, sep)|
    ensures Join(xs, sep)[Offset(xs, sep, i) + |x|..Offset(xs, sep, i + 1)] == sep
  {
    OffsetOfTail(xs, sep, i);
    OffsetOfTail(xs, sep, i + 1);
    JoinUnfold(xs, sep);
    var o, o' := Offset(xs[1..], sep, i - 1), Offset(xs[1..], sep, i);
    SliceAfter(Join(xs, sep), xs[0] + sep, Join(xs[1..], sep), o + |x|, o', sep);
  }

  /** The separator stands between each element and the next. */
  lemma {:induction false} JoinSeparatorAt(xs: seq<string>, sep: string, i: nat)
    requires i + 1 < |xs|
    ensures Offset(xs, sep, i + 1) <= |Join(xs, sep)|
    ensures Join(xs, sep)[Offset(xs, sep, i) + |xs[i]|..Offset(xs, sep, i + 1)] == sep
    decreases |xs|
  {
    if i == 0 {
      JoinSeparatorAtHead(xs, sep);
    } else {
      JoinSeparatorAt(xs[1..], sep, i - 1);
      JoinSeparatorAtStep(xs, sep, i, xs[1..][i - 1]);
    }
  }

  /** Appending an element appends the separator and the element: the step of the
      left-to-right join of section 23.1.3.18 of ECMA-262. */
  lemma {:induction false} JoinSnoc(xs: seq<string>, x: string, sep: string)
    requires |xs| > 0
    ensures Join(xs + [x], sep) == Join(xs, sep) + sep + x
    decreases |xs|
  {
    if |xs| > 1 {
      assert (xs + [x])[1..] == xs[1..] + [x];
      JoinSnoc(xs[1..], x, sep);
    } else {
      assert xs + [x] == [xs[0], x];
    }
  }
}
