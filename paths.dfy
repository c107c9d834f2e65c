/** Error keys: dot-separated paths such as `projects.0.projectName`. */
module Paths {
  import opened Values

  predicate DotFree(s: string)
  {
    '.' !in s
  }

  /** The key of a nested value: `p.seg`. */
  function Child(p: string, seg: string): string
  {
    p + "." + seg
  }

  /** The key of the element at index `i` of the array at `p`. */
  function IndexPath(p: string, i: nat): string
  {
    Child(p, NatToString(i))
  }

  /** `k` is the path `p` itself or a path nested beneath it. */
  predicate Under(k: string, p: string)
  {
    k == p || (|k| > |p| && k[..|p| + 1] == p + ".")
  }

  /** `p.a` lies beneath `p`. */
  lemma ChildUnder(p: string, a: string)
    ensures Under(Child(p, a), p)
  {
    assert Child(p, a)[..|p| + 1] == p + ".";
  }

  /** A key beneath `p.a` is beneath `p`, and is not `p` itself. */
  lemma UnderChildUnderParent(k: string, p: string, a: string)
    requires Under(k, Child(p, a))
    ensures Under(k, p) && k != p
  {
    var q := Child(p, a);
    assert q[..|p| + 1] == p + ".";
    if k != q {
      assert k[..|p| + 1] == k[..|q| + 1][..|p| + 1];
    }
  }

  /** Beneath `p.a`, the remainder of the key after `p.` is beneath `a`. */
  lemma UnderChildRest(k: string, p: string, a: string)
    requires Under(k, Child(p, a))
    ensures |k| > |p| && k[..|p| + 1] == p + "." && Under(k[|p| + 1..], a)
  {
    var q := Child(p, a);
    UnderChildUnderParent(k, p, a);
    var rest := k[|p| + 1..];
    if k == q {
      assert rest == a;
    } else {
      assert k[..|q| + 1] == q + ".";
      assert rest[..|a| + 1] == k[|p| + 1..|q| + 1];
      assert k[|p| + 1..|q| + 1] == (q + ".")[|p| + 1..];
      assert (q + ".")[|p| + 1..] == a + ".";
    }
  }

  /** Position of the first dot of `k`, or `|k|` when it has none. */
  function FirstDot(k: string): nat
    decreases |k|
  {
    if |k| == 0 || k[0] == '.' then 0 else 1 + FirstDot(k[1..])
  }

  lemma {:induction false} FirstDotAt(k: string, n: nat)
    requires n <= |k|
    requires forall i :: 0 <= i < n ==> k[i] != '.'
    requires n == |k| || k[n] == '.'
    ensures FirstDot(k) == n
    decreases n
  {
    if n > 0 {
      assert forall i :: 0 <= i < n - 1 ==> k[1..][i] == k[i + 1];
      FirstDotAt(k[1..], n - 1);
    }
  }

  /** The dot-free segment a key lies beneath is the key's first segment. */
  lemma UnderDotFreeFirst(k: string, a: string)
    requires DotFree(a) && Under(k, a)
    ensures |a| == FirstDot(k) && k[..|a|] == a
  {
    if k != a {
      assert k[..|a|] == k[..|a| + 1][..|a|];
      assert k[|a|] == k[..|a| + 1][|a|];
    }
    FirstDotAt(k, |a|);
  }

  /** A key lies beneath at most one dot-free segment. */
  lemma UnderDotFreeUnique(k: string, a: string, c: string)
    requires DotFree(a) && DotFree(c)
    requires Under(k, a) && Under(k, c)
    ensures a == c
  {
    UnderDotFreeFirst(k, a);
    UnderDotFreeFirst(k, c);
  }

  /** Beneath one parent, a key lies beneath at most one dot-free child. */
  lemma UnderChildUnique(k: string, p: string, a: string, c: string)
    requires DotFree(a) && DotFree(c)
    requires Under(k, Child(p, a)) && Under(k, Child(p, c))
    ensures a == c
  {
    UnderChildRest(k, p, a);
    UnderChildRest(k, p, c);
    UnderDotFreeUnique(k[|p| + 1..], a, c);
  }

  /** The same, stated for any two segments. */
  lemma UnderDotFreeDisjoint(k: string, a: string, c: string)
    ensures DotFree(a) && DotFree(c) && Under(k, a) && Under(k, c) ==> a == c
  {
    if DotFree(a) && DotFree(c) && Under(k, a) && Under(k, c) {
      UnderDotFreeUnique(k, a, c);
    }
  }

  lemma IndexDotFree(i: nat)
    ensures DotFree(NatToString(i))
  {
    var s := NatToString(i);
    assert forall j :: 0 <= j < |s| ==> s[j] != '.';
  }

  /** Element keys of one array never collide across indices. */
  lemma UnderIndexUnique(k: string, p: string, i: nat, j: nat)
    requires Under(k, IndexPath(p, i)) && Under(k, IndexPath(p, j))
    ensures i == j
  {
    IndexDotFree(i);
    IndexDotFree(j);
    UnderChildUnique(k, p, NatToString(i), NatToString(j));
    NatToStringInjective(i, j);
  }

  /** The same, stated for any two indices. */
  lemma UnderIndexDisjoint(k: string, p: string, i: nat, j: nat)
    ensures Under(k, IndexPath(p, i)) && Under(k, IndexPath(p, j)) ==> i == j
  {
    if Under(k, IndexPath(p, i)) && Under(k, IndexPath(p, j)) {
      UnderIndexUnique(k, p, i, j);
    }
  }
}
