/** Parenthesis nesting of OVN match text. A clause is safe to AND with
    other clauses when it is `Enclosed`: one parenthesised group whose
    opening parenthesis is closed only by its final character. */
module Nesting {

  function Step(c: char): int
  {
    if c == '(' then 1 else if c == ')' then -1 else 0
  }

  /** Open parentheses minus closed ones. */
  function Depth(s: string): int
  {
    if |s| == 0 then 0 else Depth(s[..|s| - 1]) + Step(s[|s| - 1])
  }

  predicate ParenFree(s: string)
  {
    '(' !in s && ')' !in s
  }

  /** Every prefix closes no more than it opened, and the whole closes all. */
  predicate Balanced(s: string)
  {
    Depth(s) == 0 && forall k :: 0 <= k <= |s| ==> Depth(s[..k]) >= 0
  }

  /** One parenthesised group spanning the whole string. */
  predicate Enclosed(s: string)
  {
    && |s| >= 2 && s[0] == '(' && s[|s| - 1] == ')'
    && Depth(s) == 0
    && forall k :: 1 <= k < |s| ==> Depth(s[..k]) > 0
  }

  lemma {:induction false} DepthAppend(a: string, b: string)
    ensures Depth(a + b) == Depth(a) + Depth(b)
    decreases |b|
  {
    if |b| > 0 {
      var b' := b[..|b| - 1];
      assert (a + b)[..|a + b| - 1] == a + b';
      DepthAppend(a, b');
    } else {
      assert a + b == a;
    }
  }

  lemma {:induction false} ParenFreeDepth(s: string)
    requires ParenFree(s)
    ensures Depth(s) == 0
    decreases |s|
  {
    if |s| > 0 {
      var s' := s[..|s| - 1];
      assert ParenFree(s') by {
        forall k | 0 <= k < |s'| ensures s'[k] == s[k] {}
      }
      ParenFreeDepth(s');
    }
  }

  /** Text without parentheses is trivially balanced. */
  lemma ParenFreeBalanced(s: string)
    requires ParenFree(s)
    ensures Balanced(s)
  {
    ParenFreeDepth(s);
    forall k | 0 <= k <= |s| ensures Depth(s[..k]) == 0 {
      assert ParenFree(s[..k]) by {
        forall j | 0 <= j < k ensures s[..k][j] == s[j] {}
      }
      ParenFreeDepth(s[..k]);
    }
  }

  /** Wrapping balanced text in a pair of parentheses encloses it. */
  lemma WrapEnclosed(s: string)
    requires Balanced(s)
    ensures Enclosed("(" + s + ")")
  {
    var t := "(" + s + ")";
    assert t[..|t| - 1] == "(" + s;
    DepthAppend("(", s);
    forall k | 1 <= k < |t| ensures Depth(t[..k]) > 0 {
      assert t[..k] == "(" + s[..k - 1];
      DepthAppend("(", s[..k - 1]);
    }
  }

  lemma EnclosedBalanced(s: string)
    requires Enclosed(s)
    ensures Balanced(s)
  {
    assert s[..|s|] == s;
  }
}
