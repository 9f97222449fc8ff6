/**
 * The string and list helpers the tools call (`split_string`,
 * `contains_string`, `erase_sub_string`). Their implementation file is not
 * part of this model, so they are defined here explicitly:
 *  - `Split` cuts a string at EVERY occurrence of a one-character delimiter,
 *    keeping empty pieces, and always yields at least one piece;
 *  - `IndexOf` is membership with first-index lookup (-1 when absent);
 *  - `EraseSubString` removes the FIRST occurrence of a substring.
 */
module HelperFunctions {

  import opened Wrappers

  /** Every call site in the tools splits on a one-character delimiter. */
  function Split(s: string, d: char): (parts: seq<string>)
    ensures |parts| >= 1
    decreases |s|
  {
    if |s| == 0 then [""]
    else
      var rest := Split(s[1..], d);
      if s[0] == d then [""] + rest
      else [[s[0]] + rest[0]] + rest[1..]
  }

  /** Re-joins pieces with the delimiter between consecutive pieces. */
  function Join(parts: seq<string>, d: char): string
    requires |parts| >= 1
    decreases |parts|
  {
    if |parts| == 1 then parts[0] else parts[0] + [d] + Join(parts[1..], d)
  }

  function Last<T>(s: seq<T>): T
    requires |s| >= 1
  {
    s[|s| - 1]
  }

  /** No piece produced by `Split` contains the delimiter. */
  lemma {:induction false} SplitPiecesFree(s: string, d: char)
    ensures forall k :: 0 <= k < |Split(s, d)| ==> d !in Split(s, d)[k]
    decreases |s|
  {
    if |s| > 0 {
      SplitPiecesFree(s[1..], d);
    }
  }

  /** Splitting and re-joining reconstructs the string. */
  lemma {:induction false} JoinSplit(s: string, d: char)
    ensures Join(Split(s, d), d) == s
    decreases |s|
  {
    if |s| > 0 {
      var rest := Split(s[1..], d);
      JoinSplit(s[1..], d);
      if s[0] == d {
        assert Split(s, d) == [""] + rest;
        assert ([""] + rest)[1..] == rest;
        assert Join(Split(s, d), d) == "" + [d] + Join(rest, d);
      } else {
        var parts := Split(s, d);
        assert parts == [[s[0]] + rest[0]] + rest[1..];
        if |rest| == 1 {
          assert Join(parts, d) == [s[0]] + rest[0];
        } else {
          assert parts[1..] == rest[1..];
          assert Join(rest, d) == rest[0] + [d] + Join(rest[1..], d);
          assert Join(parts, d) == [s[0]] + rest[0] + [d] + Join(rest[1..], d);
        }
        assert s == [s[0]] + s[1..];
      }
    }
  }

  /** Joining pieces that do not contain the delimiter and splitting again
      gives the same pieces back. */
  lemma {:induction false} SplitJoin(parts: seq<string>, d: char)
    requires |parts| >= 1
    requires forall k :: 0 <= k < |parts| ==> d !in parts[k]
    ensures Split(Join(parts, d), d) == parts
    decreases |parts|, |parts[0]|
  {
    if |parts| == 1 {
      SplitNoDelimiter(parts[0], d);
    } else if |parts[0]| == 0 {
      SplitJoin(parts[1..], d);
      SplitJoinEmptyHead(parts, d);
    } else {
      var shorter := [parts[0][1..]] + parts[1..];
      assert parts[0] == [parts[0][0]] + parts[0][1..];
      assert forall k :: 0 <= k < |shorter| ==> d !in shorter[k];
      SplitJoin(shorter, d);
      SplitJoinCharHead(parts, d);
    }
  }

  /** The inductive step of `SplitJoin` for an empty first piece. */
  lemma SplitJoinEmptyHead(parts: seq<string>, d: char)
    requires |parts| >= 2 && parts[0] == ""
    requires Split(Join(parts[1..], d), d) == parts[1..]
    ensures Split(Join(parts, d), d) == parts
  {
    var rest := Join(parts[1..], d);
    assert Join(parts, d) == [d] + rest;
    SplitCons(d, rest, d);
    assert parts == [parts[0]] + parts[1..];
  }

  /** The inductive step of `SplitJoin` for a first piece starting with a
      character other than the delimiter. */
  lemma SplitJoinCharHead(parts: seq<string>, d: char)
    requires |parts| >= 2 && |parts[0]| > 0 && parts[0][0] != d
    requires Split(Join([parts[0][1..]] + parts[1..], d), d) == [parts[0][1..]] + parts[1..]
    ensures Split(Join(parts, d), d) == parts
  {
    var head := parts[0];
    var shorter := [head[1..]] + parts[1..];
    assert shorter[1..] == parts[1..];
    assert head == [head[0]] + head[1..];
    assert Join(parts, d) == [head[0]] + Join(shorter, d);
    SplitCons(head[0], Join(shorter, d), d);
  }

  /** One step of `Split`: a leading delimiter starts a new empty piece, any
      other character joins the first piece of the rest. */
  lemma SplitCons(c: char, t: string, d: char)
    ensures Split([c] + t, d) ==
      if c == d then [""] + Split(t, d) else [[c] + Split(t, d)[0]] + Split(t, d)[1..]
  {
    assert ([c] + t)[1..] == t;
  }

  lemma {:induction false} SplitNoDelimiter(s: string, d: char)
    requires d !in s
    ensures Split(s, d) == [s]
    decreases |s|
  {
    if |s| > 0 {
      assert d !in s[1..];
      SplitNoDelimiter(s[1..], d);
      assert [s[0]] + s[1..] == s;
    }
  }

  /** Joining at least two pieces ends with the delimiter and the last piece. */
  lemma {:induction false} JoinLast(parts: seq<string>, d: char)
    requires |parts| >= 2
    ensures Join(parts, d) == Join(parts[..|parts| - 1], d) + [d] + Last(parts)
    decreases |parts|
  {
    if |parts| > 2 {
      JoinLast(parts[1..], d);
      assert parts[1..][..|parts| - 2] == parts[..|parts| - 1][1..];
    }
  }

  /** First position of `x` in `xs`, or -1 when `x` does not occur
      (`contains_string` with an index out-parameter). */
  function IndexOf<T(==)>(xs: seq<T>, x: T): (r: int)
    ensures -1 <= r < |xs|
    ensures r == -1 <==> x !in xs
    ensures r >= 0 ==> xs[r] == x && x !in xs[..r]
  {
    if |xs| == 0 then -1
    else if xs[0] == x then 0
    else
      var k := IndexOf(xs[1..], x);
      assert xs[1..][..if k < 0 then 0 else k] == xs[1..if k < 0 then 1 else k + 1];
      if k == -1 then -1 else k + 1
  }

  /** The first position is determined by its two defining facts. */
  lemma IndexOfUnique<T>(xs: seq<T>, x: T, r: nat)
    requires r < |xs| && xs[r] == x && x !in xs[..r]
    ensures IndexOf(xs, x) == r
  {
    var q := IndexOf(xs, x);
    assert forall k :: 0 <= k < r ==> xs[..r][k] == xs[k];
    assert forall k :: 0 <= k < q ==> xs[..q][k] == xs[k];
  }

  /** Appending an element leaves earlier first positions where they were. */
  lemma IndexOfAppend<T>(xs: seq<T>, y: T, x: T)
    ensures IndexOf(xs + [y], x) == if x in xs then IndexOf(xs, x) else if y == x then |xs| else -1
  {
    var ys := xs + [y];
    if x in xs {
      var r := IndexOf(xs, x);
      assert ys[..r] == xs[..r];
      IndexOfUnique(ys, x, r);
    } else if y == x {
      assert ys[..|xs|] == xs;
      IndexOfUnique(ys, x, |xs|);
    } else {
      assert x !in ys;
    }
  }

  /** In a prefix that already holds `x`, the first position is the same. */
  lemma IndexOfPrefix<T>(xs: seq<T>, n: nat, x: T)
    requires n <= |xs| && x in xs[..n]
    ensures IndexOf(xs[..n], x) == IndexOf(xs, x)
  {
    var r := IndexOf(xs[..n], x);
    assert xs[..n][..r] == xs[..r];
    IndexOfUnique(xs, x, r);
  }

  /** Membership (`contains_string` without an index). */
  predicate Contains<T(==)>(xs: seq<T>, x: T) {
    IndexOf(xs, x) != -1
  }

  /** Number of occurrences of `x` in `xs`. */
  function Count<T(==)>(xs: seq<T>, x: T): nat {
    if |xs| == 0 then 0 else (if xs[0] == x then 1 else 0) + Count(xs[1..], x)
  }

  /** No element occurs twice. */
  predicate NoDuplicates<T(==)>(xs: seq<T>) {
    forall i, j :: 0 <= i < j < |xs| ==> xs[i] != xs[j]
  }

  predicate OccursAt(s: string, sub: string, i: nat) {
    i + |sub| <= |s| && s[i..i + |sub|] == sub
  }

  /** First position at or after `from` where `sub` occurs in `s`. */
  function FindFrom(s: string, sub: string, from: nat): (r: Option<nat>)
    ensures r.Some? ==> from <= r.value && OccursAt(s, sub, r.value)
    ensures r.Some? ==> forall j :: from <= j < r.value ==> !OccursAt(s, sub, j)
    ensures r.None? ==> forall j :: from <= j ==> !OccursAt(s, sub, j)
    decreases |s| - from
  {
    if from + |sub| > |s| then None
    else if s[from..from + |sub|] == sub then Some(from)
    else FindFrom(s, sub, from + 1)
  }

  /** Removes the first occurrence of `sub`; unchanged when there is none. */
  function EraseSubString(s: string, sub: string): (r: string)
    ensures FindFrom(s, sub, 0).None? ==> r == s
    ensures FindFrom(s, sub, 0).Some? ==>
      var i := FindFrom(s, sub, 0).value;
      |r| + |sub| == |s| && i <= |r| && s == r[..i] + sub + r[i..]
  {
    match FindFrom(s, sub, 0)
    case None => s
    case Some(i) =>
      var r := s[..i] + s[i + |sub|..];
      assert r[..i] == s[..i];
      assert r[i..] == s[i + |sub|..];
      assert s == s[..i] + s[i..i + |sub|] + s[i + |sub|..];
      r
  }

  /** A string that ends with `sub` and has no earlier occurrence of it is
      the erased string followed by `sub`. */
  lemma EraseOnlySuffix(s: string, sub: string)
    requires |sub| <= |s| && s[|s| - |sub|..] == sub
    requires forall j :: 0 <= j < |s| - |sub| ==> !OccursAt(s, sub, j)
    ensures EraseSubString(s, sub) + sub == s
  {
    var n := |s| - |sub|;
    assert OccursAt(s, sub, n);
    var found := FindFrom(s, sub, 0);
    assert found.value == n;
    var r := EraseSubString(s, sub);
    assert r[..n] == r;
  }
}
