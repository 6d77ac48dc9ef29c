/** Names of backup files, and how the planner finds its way back from one to the file it backs up. */
module Sidecars {
  import opened Text

  const BAK := ".bak."

  /** A backup stamp: digits, 'T', '.' and 'Z'. All that matters is that it holds no 'b' and no slash. */
  predicate StampText(stamp: string) {
    stamp != "" && 'b' !in stamp && '/' !in stamp
  }

  function Sidecar(path: string, stamp: string): string {
    path + (BAK + stamp)
  }

  // ---------- Go's byte-wise string order ----------

  predicate StrLess(a: string, b: string) {
    b != "" && (a == "" || a[0] < b[0] || (a[0] == b[0] && StrLess(a[1..], b[1..])))
  }

  /** `a` comes before `b` when it ends, or has the smaller byte, where they first differ. */
  predicate ComesBefore(a: string, b: string, n: int) {
    0 <= n <= |a| && n < |b| && a[..n] == b[..n] && (n == |a| || a[n] < b[n])
  }

  lemma {:induction false} StrLessIff(a: string, b: string)
    ensures StrLess(a, b) <==> exists n :: ComesBefore(a, b, n)
  {
    if a != "" && b != "" && a[0] == b[0] {
      StrLessIff(a[1..], b[1..]);
      if StrLess(a[1..], b[1..]) {
        var n :| ComesBefore(a[1..], b[1..], n);
        assert a[..n + 1] == [a[0]] + a[1..][..n] && b[..n + 1] == [b[0]] + b[1..][..n];
        assert ComesBefore(a, b, n + 1);
      }
      if n :| ComesBefore(a, b, n) {
        assert n > 0;
        assert a[1..][..n - 1] == a[..n][1..] && b[1..][..n - 1] == b[..n][1..];
        assert ComesBefore(a[1..], b[1..], n - 1);
      }
    } else if b != "" {
      assert StrLess(a, b) ==> ComesBefore(a, b, 0);
      if n :| ComesBefore(a, b, n) && a != "" {
        assert n > 0 ==> a[..n][0] == b[..n][0];
      }
    }
  }

  lemma {:induction false} StrLessAsymmetric(a: string, b: string)
    requires StrLess(a, b)
    ensures !StrLess(b, a) && a != b
  {
    if a != "" && a[0] == b[0] {
      StrLessAsymmetric(a[1..], b[1..]);
    }
  }

  lemma {:induction false} StrLessTotal(a: string, b: string)
    ensures StrLess(a, b) || a == b || StrLess(b, a)
  {
    if a != "" && b != "" && a[0] == b[0] {
      StrLessTotal(a[1..], b[1..]);
      assert a == [a[0]] + a[1..] && b == [b[0]] + b[1..];
    }
  }

  lemma {:induction false} StrLessTransitive(a: string, b: string, c: string)
    requires StrLess(a, b) && StrLess(b, c)
    ensures StrLess(a, c)
  {
    if a != "" && a[0] == b[0] == c[0] {
      StrLessTransitive(a[1..], b[1..], c[1..]);
    }
  }

  lemma {:induction false} StrLessUnderPrefix(p: string, a: string, b: string)
    requires StrLess(a, b)
    ensures StrLess(p + a, p + b)
  {
    if p == "" {
      assert p + a == a && p + b == b;
    } else {
      StrLessUnderPrefix(p[1..], a, b);
      assert (p + a)[1..] == p[1..] + a && (p + b)[1..] == p[1..] + b;
    }
  }

  // ---------- splitting at the last ".bak." ----------

  predicate BakAt(s: string, i: int) {
    0 <= i && i + 5 <= |s| && s[i] == '.' && s[i + 1] == 'b' && s[i + 2] == 'a' && s[i + 3] == 'k' && s[i + 4] == '.'
  }

  /** The last index at or below `i` where ".bak." occurs, or -1. */
  function LastBakFrom(s: string, i: int): (r: int)
    ensures r == -1 || (0 <= r <= i && BakAt(s, r))
    ensures forall k | r < k <= i :: !BakAt(s, k)
    decreases i + 1
  {
    if i < 0 then -1 else if BakAt(s, i) then i else LastBakFrom(s, i - 1)
  }

  function LastBak(s: string): int {
    LastBakFrom(s, |s|)
  }

  /** The path a backup name belongs to, when it is one. */
  function OriginalOf(name: string): Option<string> {
    var i := LastBak(name);
    if i > 0 then Some(name[..i]) else None
  }

  /** A name is a backup of `t` exactly when it starts with `t` and ".bak.", and ".bak." does not occur later on. */
  lemma OriginalOfIff(name: string, t: string)
    ensures OriginalOf(name) == Some(t) <==> t != "" && t + BAK <= name && forall j | |t| < j < |name| :: !BakAt(name, j)
  {
    var i := LastBak(name);
    if t + BAK <= name {
      PrefixHasBak(t, name);
    }
    if i > 0 {
      assert name[..i] + BAK == name[..i + 5];
    }
  }

  lemma NoBakInStamp(path: string, stamp: string, k: int)
    requires StampText(stamp) && |path| < k
    ensures !BakAt(Sidecar(path, stamp), k)
  {
    var s := Sidecar(path, stamp);
    assert forall j | |path| + 5 <= j < |s| :: s[j] == stamp[j - |path| - 5];
    assert BakAt(s, |path|);
  }

  /** The last-".bak." split recovers the original path of every generated backup name, whatever the path
      itself contains. */
  lemma SplitRecoversPath(path: string, stamp: string)
    requires path != "" && StampText(stamp)
    ensures OriginalOf(Sidecar(path, stamp)) == Some(path)
  {
    var s := Sidecar(path, stamp);
    assert BakAt(s, |path|);
    forall k | |path| < k <= |s| ensures !BakAt(s, k) {
      NoBakInStamp(path, stamp, k);
    }
    assert s[..|path|] == path;
  }

  // ---------- matching by prefix ----------

  /** `u` lives in the namespace of `t`'s backups: a prefix scan for `t` would also claim `u`'s. */
  predicate NestedIn(u: string, t: string) {
    t + BAK <= u + "."
  }

  /** ".bak." cannot overlap itself, so a shorter path's backup prefix inside a longer path's ends before
      the longer path does. */
  lemma BakDoesNotOverlap(t: string, u: string, rest: string)
    requires |t| < |u| && t + BAK <= u + (BAK + rest)
    ensures NestedIn(u, t)
  {
    var s := u + (BAK + rest);
    PrefixHasBak(t, s);
    assert BakAt(s, |u|);
    assert |u| - |t| >= 4;
    assert (u + ".")[..|t| + 5] == s[..|t| + 5];
  }

  lemma PrefixHasBak(t: string, s: string)
    requires t + BAK <= s
    ensures s[..|t|] == t && BakAt(s, |t|)
  {
    assert forall k | 0 <= k < |t| + 5 :: s[k] == (t + BAK)[k];
  }

  /** A prefix scan for `t` claims a generated backup name exactly when it is `t`'s own, or that of a path
      nested in `t`'s namespace. */
  lemma PrefixScanClaims(t: string, u: string, stamp: string)
    requires StampText(stamp)
    ensures t + BAK <= Sidecar(u, stamp) <==> t == u || NestedIn(u, t)
  {
    var s := Sidecar(u, stamp);
    if t + BAK <= s {
      PrefixHasBak(t, s);
      if |t| < |u| {
        BakDoesNotOverlap(t, u, stamp);
      } else if |t| == |u| {
        assert s[..|u|] == u;
      } else {
        NoBakInStamp(u, stamp, |t|);
      }
    }
    if t == u {
      assert s == t + BAK + stamp;
    } else if NestedIn(u, t) {
      assert (u + ".")[..|t| + 5] == t + BAK;
      assert s[..|u| + 1] == u + ".";
      assert s[..|t| + 5] == s[..|u| + 1][..|t| + 5];
    }
  }
}
