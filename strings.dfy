/** Go's `strings.Join` and the separator search and split that invert it.
    The match renderers join port lists with "," and disjuncts with " || ";
    `Split` is the reference reading that recovers what was joined. */
module Strings {

  datatype Option<T> = None | Some(value: T)

  /** `strings.Join`: the elements with `sep` between consecutive ones. */
  function Join(xs: seq<string>, sep: string): string
  {
    if |xs| == 0 then ""
    else if |xs| == 1 then xs[0]
    else xs[0] + sep + Join(xs[1..], sep)
  }

  /** Does `sep` occur in `s` starting at position `i`? */
  predicate OccursAt(s: string, sep: string, i: nat)
  {
    i + |sep| <= |s| && s[i..i + |sep|] == sep
  }

  /** The first position at which `sep` occurs in `s`, if any. */
  function Find(s: string, sep: string): (r: Option<nat>)
    requires |sep| > 0
    ensures r.Some? ==> OccursAt(s, sep, r.value)
    ensures r.Some? ==> forall j :: 0 <= j < r.value ==> !OccursAt(s, sep, j)
    ensures r.None? ==> forall j :: 0 <= j <= |s| ==> !OccursAt(s, sep, j)
    decreases |s|
  {
    if |s| < |sep| then None
    else if s[..|sep|] == sep then Some(0)
    else
      match Find(s[1..], sep)
      case None =>
        assert forall j :: 1 <= j <= |s| ==> (OccursAt(s, sep, j) <==> OccursAt(s[1..], sep, j - 1));
        None
      case Some(i) =>
        assert forall j :: 1 <= j <= |s| ==> (OccursAt(s, sep, j) <==> OccursAt(s[1..], sep, j - 1));
        Some(i + 1)
  }

  /** Cut `s` at every occurrence of `sep`, scanning left to right. */
  function Split(s: string, sep: string): (r: seq<string>)
    requires |sep| > 0
    ensures |r| > 0
    decreases |s|
  {
    match Find(s, sep)
    case None => [s]
    case Some(i) => [s[..i]] + Split(s[i + |sep|..], sep)
  }

  /** No element of `xs` contains the character `c`. */
  predicate NoneContains(xs: seq<string>, c: char)
  {
    forall k :: 0 <= k < |xs| ==> c !in xs[k]
  }

  /** `c` marks `sep` at position `m`: it sits there and nowhere before it.
      Text free of `c` cannot hold, or run into, an occurrence of `sep`. */
  predicate Marker(sep: string, m: nat, c: char)
  {
    m < |sep| && sep[m] == c && c !in sep[..m]
  }

  /** A separator is first found right after a prefix that lacks its marker. */
  lemma {:induction false} FindAfterPrefix(x: string, sep: string, rest: string, m: nat, c: char)
    requires Marker(sep, m, c) && c !in x
    ensures Find(x + sep + rest, sep) == Some(|x|)
  {
    var s := x + sep + rest;
    if |x| == 0 {
      assert s[..|sep|] == sep;
    } else {
      assert s[..|sep|] != sep by {
        if m < |x| {
          assert s[..|sep|][m] == x[m];
        } else {
          assert s[..|sep|][m] == sep[m - |x|] == sep[..m][m - |x|];
        }
      }
      assert s[1..] == x[1..] + sep + rest;
      assert c !in x[1..] by {
        forall k | 0 <= k < |x[1..]| ensures x[1..][k] != c { assert x[1..][k] == x[k + 1]; }
      }
      FindAfterPrefix(x[1..], sep, rest, m, c);
    }
  }

  /** Text lacking the separator's marker holds no separator. */
  lemma FindAbsent(x: string, sep: string, m: nat, c: char)
    requires Marker(sep, m, c) && c !in x
    ensures Find(x, sep) == None
  {
  }

  /** Splitting undoes joining when no element holds the separator's marker. */
  lemma {:induction false} SplitJoin(xs: seq<string>, sep: string, m: nat, c: char)
    requires |xs| > 0 && Marker(sep, m, c)
    requires NoneContains(xs, c)
    ensures Split(Join(xs, sep), sep) == xs
  {
    if |xs| == 1 {
      FindAbsent(xs[0], sep, m, c);
    } else {
      var rest := Join(xs[1..], sep);
      FindAfterPrefix(xs[0], sep, rest, m, c);
      var s := xs[0] + sep + rest;
      assert s[..|xs[0]|] == xs[0];
      assert s[|xs[0]| + |sep|..] == rest;
      SplitJoin(xs[1..], sep, m, c);
    }
  }

  /** A character absent from every element and from the separator is absent from the join. */
  lemma {:induction false} JoinAvoids(xs: seq<string>, sep: string, c: char)
    requires NoneContains(xs, c) && c !in sep
    ensures c !in Join(xs, sep)
  {
    if |xs| > 1 {
      JoinAvoids(xs[1..], sep, c);
    }
  }
}
