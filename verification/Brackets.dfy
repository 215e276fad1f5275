/** Brace matching by counting, as the reference for the scope parser. */
module Brackets {

  ghost function Weight(c: char): int {
    if c == '{' then 1 else if c == '}' then -1 else 0
  }

  /** Opening minus closing braces in `s[i..j]`. */
  ghost function Depth(s: string, i: nat, j: nat): int
    requires i <= j <= |s|
    decreases j
  {
    if i == j then 0 else Depth(s, i, j - 1) + Weight(s[j - 1])
  }

  /** `s[j]` is the brace that closes `s[i]`. */
  ghost predicate Matches(s: string, i: nat, j: nat) {
    && i < j < |s| && s[i] == '{'
    && Depth(s, i, j + 1) == 0
    && forall k :: i < k <= j ==> Depth(s, i, k) >= 1
  }

  /** Every brace of `s[i..]` is matched within it. */
  ghost predicate Balanced(s: string, i: nat) {
    && i <= |s| && Depth(s, i, |s|) == 0
    && forall k :: i <= k <= |s| ==> Depth(s, i, k) >= 0
  }

  ghost predicate NoBraces(s: string, i: nat, j: nat) {
    i <= j <= |s| && forall k :: i <= k < j ==> s[k] != '{' && s[k] != '}'
  }

  lemma {:induction false} DepthAdds(s: string, i: nat, j: nat, k: nat)
    requires i <= j <= k <= |s|
    ensures Depth(s, i, k) == Depth(s, i, j) + Depth(s, j, k)
    decreases k
  {
    if j < k {
      DepthAdds(s, i, j, k - 1);
    }
  }

  lemma {:induction false} NoBracesDepth(s: string, i: nat, j: nat)
    requires NoBraces(s, i, j)
    ensures Depth(s, i, j) == 0
    decreases j
  {
    if i < j {
      NoBracesDepth(s, i, j - 1);
    }
  }

  /** A brace whose depth returns to zero has a match. */
  lemma {:induction false} MatchExists(s: string, i: nat, n: nat) returns (j: nat)
    requires i < n <= |s| && s[i] == '{' && Depth(s, i, n) <= 0
    ensures j < n && Matches(s, i, j)
  {
    var k := i + 1;
    assert Depth(s, i, k) == Depth(s, i, i) + 1;
    while k < n && Depth(s, i, k + 1) >= 1
      invariant i < k <= n && Depth(s, i, k) >= 1
      invariant forall m :: i < m <= k ==> Depth(s, i, m) >= 1
    {
      k := k + 1;
    }
    j := k;
  }

  /** The closing brace of a scope lies behind everything that stays at its depth, and behind the next brace if that opens. */
  lemma {:induction false} InsideScope(s: string, i: nat, c: nat, g: nat, m: nat)
    requires i < c <= g < |s| && s[g] == '{' && NoBraces(s, c, g) && Matches(s, i, m)
    requires Depth(s, i, c) == 1 && forall k :: i < k <= c ==> Depth(s, i, k) >= 1
    ensures exists j :: Matches(s, g, j)
  {
    assert c <= m;
    assert Weight(s[m]) == -1 by {
      assert Depth(s, i, m) >= 1;
    }
    assert g < m;
    NoBracesDepth(s, c, g);
    DepthAdds(s, i, c, g);
    DepthAdds(s, i, g, m + 1);
    var j := MatchExists(s, g, m + 1);
  }

  /** Reading on over a complete scope keeps the depth. */
  lemma SkipScope(s: string, i: nat, c: nat, g: nat, m: nat, base: nat)
    requires i <= c <= g && NoBraces(s, c, g) && Matches(s, g, m)
    requires Depth(s, i, c) == base && forall k :: i < k <= c ==> Depth(s, i, k) >= base
    ensures Depth(s, i, m + 1) == base && forall k :: i < k <= m + 1 ==> Depth(s, i, k) >= base
  {
    NoBracesDepth(s, c, g);
    DepthAdds(s, i, c, g);
    DepthAdds(s, i, g, m + 1);
    forall k | c < k <= m
      ensures Depth(s, i, k) >= base
    {
      if k <= g {
        NoBracesDepth(s, c, k);
        DepthAdds(s, i, c, k);
      } else {
        DepthAdds(s, i, g, k);
      }
    }
  }

  /** The first brace behind a scope's last child closes it. */
  lemma CloseScope(s: string, i: nat, c: nat, p: nat)
    requires i < c <= p < |s| && s[i] == '{' && s[p] == '}' && NoBraces(s, c, p)
    requires Depth(s, i, c) == 1 && forall k :: i < k <= c ==> Depth(s, i, k) >= 1
    ensures Matches(s, i, p)
  {
    forall k | c < k <= p
      ensures Depth(s, i, k) == 1
    {
      NoBracesDepth(s, c, k);
      DepthAdds(s, i, c, k);
    }
  }

  lemma {:induction false} NoCloserNoMatch(s: string, i: nat, c: nat)
    requires i < c <= |s| && forall k :: c <= k < |s| ==> s[k] != '}'
    requires forall k :: i < k <= c ==> Depth(s, i, k) >= 1
    ensures forall m :: !Matches(s, i, m)
  {
    forall m: nat
      ensures !Matches(s, i, m)
    {
      if i < m < |s| {
        if m < c {
          assert Depth(s, i, m + 1) >= 1;
        } else {
          assert Depth(s, i, m + 1) == Depth(s, i, m) + Weight(s[m]);
        }
      }
    }
  }
}
