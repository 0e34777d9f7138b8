/**
 * PHP's `strtr($s, $pairs)` with an array of replacement pairs, the whole of
 * attribute-to-column resolution: the string is scanned left to right; at each
 * position the LONGEST key that starts there is replaced by its value and the
 * scan resumes after it, so replaced text is never scanned again; a position
 * where no key starts is copied unchanged. Empty keys never match.
 */
module PhpStrtr {
  import opened PhpStrings

  /**
   * The length of the longest non-empty prefix of `s`, of length at most `n`,
   * that is a key of `m`; 0 when there is none.
   */
  function MatchLen(s: string, m: map<string, string>, n: nat): (r: nat)
    requires n <= |s|
    ensures r <= n
    ensures r > 0 ==> s[..r] in m
    ensures forall j :: r < j <= n ==> s[..j] !in m
    decreases n
  {
    if n == 0 then 0
    else if s[..n] in m then n
    else MatchLen(s, m, n - 1)
  }

  /** `strtr($s, $m)`: the scan described above, one match or one copied character at a time. */
  function Strtr(s: string, m: map<string, string>): string
    decreases |s|
  {
    if s == "" then ""
    else
      var n := MatchLen(s, m, |s|);
      if n == 0 then [s[0]] + Strtr(s[1..], m)
      else m[s[..n]] + Strtr(s[n..], m)
  }

  /** The contract of MatchLen determines its result. */
  lemma MatchLenIs(s: string, m: map<string, string>, n: nat, r: nat)
    requires r <= n <= |s|
    requires r > 0 ==> s[..r] in m
    requires forall j :: r < j <= n ==> s[..j] !in m
    ensures MatchLen(s, m, n) == r
  {
  }

  /** A string in which no key of `m` occurs anywhere comes back unchanged. */
  lemma {:induction false} StrtrUntouched(s: string, m: map<string, string>)
    requires forall i, j :: 0 <= i < j <= |s| ==> s[i..j] !in m
    ensures Strtr(s, m) == s
    decreases |s|
  {
    if s != "" {
      forall j | 0 < j <= |s| ensures s[..j] !in m {
        assert s[..j] == s[0..j];
      }
      MatchLenIs(s, m, |s|, 0);
      var t := s[1..];
      forall i, j | 0 <= i < j <= |t| ensures t[i..j] !in m {
        assert t[i..j] == s[i + 1..j + 1];
      }
      StrtrUntouched(t, m);
      assert s == [s[0]] + t;
    }
  }

  /**
   * The longest-match rule: when `k` is a key starting at the front of `s` and
   * no longer prefix of `s` is a key, `k` is replaced and the scan resumes
   * right after it.
   */
  lemma StrtrLongestMatch(s: string, m: map<string, string>, k: string)
    requires k != "" && k in m && StartsWith(s, k)
    requires forall j :: |k| < j <= |s| ==> s[..j] !in m
    ensures Strtr(s, m) == m[k] + Strtr(s[|k|..], m)
  {
    MatchLenIs(s, m, |s|, |k|);
  }

  /**
   * A key on its own becomes exactly its value: the replacement is not
   * scanned again, even when it contains keys itself.
   */
  lemma StrtrKey(k: string, m: map<string, string>)
    requires k != "" && k in m
    ensures Strtr(k, m) == m[k]
  {
    StrtrLongestMatch(k, m, k);
    assert k[|k|..] == "";
  }

  lemma MatchLenAppend(s: string, t: string, m: map<string, string>)
    requires s != "" && t != ""
    requires forall k :: k in m ==> t[0] !in k
    ensures MatchLen(s + t, m, |s + t|) == MatchLen(s, m, |s|)
  {
    var r := MatchLen(s, m, |s|);
    forall j | r < j <= |s + t| ensures (s + t)[..j] !in m {
      if j <= |s| {
        assert (s + t)[..j] == s[..j];
      } else {
        assert (s + t)[..j][|s|] == t[0];
      }
    }
    if r > 0 {
      assert (s + t)[..r] == s[..r];
    }
    MatchLenIs(s + t, m, |s + t|, r);
  }

  /**
   * Resolution is piecewise when no key can reach across the seam: if the
   * first character of `t` appears in no key, strtr of `s + t` is strtr of
   * `s` followed by strtr of `t`.
   */
  lemma {:induction false} StrtrAppend(s: string, t: string, m: map<string, string>)
    requires t != ""
    requires forall k :: k in m ==> t[0] !in k
    ensures Strtr(s + t, m) == Strtr(s, m) + Strtr(t, m)
    decreases |s|
  {
    if s == "" {
      assert s + t == t;
    } else {
      var n := MatchLen(s, m, |s|);
      MatchLenAppend(s, t, m);
      if n == 0 {
        StrtrAppendCopy(s, t, m);
        StrtrAppend(s[1..], t, m);
        AppendAssoc([s[0]], Strtr(s[1..], m), Strtr(t, m));
      } else {
        StrtrAppendMatch(s, t, m, n);
        StrtrAppend(s[n..], t, m);
        AppendAssoc(m[s[..n]], Strtr(s[n..], m), Strtr(t, m));
      }
    }
  }

  lemma StrtrAppendCopy(s: string, t: string, m: map<string, string>)
    requires s != ""
    requires MatchLen(s, m, |s|) == 0 && MatchLen(s + t, m, |s + t|) == 0
    ensures Strtr(s, m) == [s[0]] + Strtr(s[1..], m)
    ensures Strtr(s + t, m) == [s[0]] + Strtr(s[1..] + t, m)
  {
    StrtrUnfold(s, m);
    StrtrUnfold(s + t, m);
    assert (s + t)[1..] == s[1..] + t;
  }

  lemma StrtrAppendMatch(s: string, t: string, m: map<string, string>, n: nat)
    requires 0 < n <= |s|
    requires MatchLen(s, m, |s|) == n && MatchLen(s + t, m, |s + t|) == n
    ensures s[..n] in m
    ensures Strtr(s, m) == m[s[..n]] + Strtr(s[n..], m)
    ensures Strtr(s + t, m) == m[s[..n]] + Strtr(s[n..] + t, m)
  {
    StrtrUnfold(s, m);
    StrtrUnfold(s + t, m);
    assert (s + t)[..n] == s[..n];
    assert (s + t)[n..] == s[n..] + t;
  }

  /** One step of the scan: the longest match (or one copied character), then the rest. */
  lemma StrtrUnfold(s: string, m: map<string, string>)
    requires s != ""
    ensures var n := MatchLen(s, m, |s|);
            Strtr(s, m) == if n == 0 then [s[0]] + Strtr(s[1..], m) else m[s[..n]] + Strtr(s[n..], m)
  {
  }

  /** A position where no key starts is copied and the scan moves one character on. */
  lemma StrtrCopyFirst(s: string, m: map<string, string>)
    requires s != ""
    requires forall j :: 0 < j <= |s| ==> s[..j] !in m
    ensures Strtr(s, m) == [s[0]] + Strtr(s[1..], m)
  {
    MatchLenIs(s, m, |s|, 0);
  }

  /** Text at whose positions no key starts is copied through as it is. */
  lemma {:induction false} StrtrCopyPrefix(a: string, b: string, m: map<string, string>)
    requires forall i, j :: 0 <= i < |a| && i < j <= |a + b| ==> (a + b)[i..j] !in m
    ensures Strtr(a + b, m) == a + Strtr(b, m)
    decreases |a|
  {
    if a == "" {
      assert a + b == b;
    } else {
      var a' := a[1..];
      CopyPrefixStep(a, b, m);
      StrtrCopyPrefix(a', b, m);
      AppendAssoc([a[0]], a', Strtr(b, m));
      assert a == [a[0]] + a';
    }
  }

  lemma CopyPrefixStep(a: string, b: string, m: map<string, string>)
    requires a != ""
    requires forall i, j :: 0 <= i < |a| && i < j <= |a + b| ==> (a + b)[i..j] !in m
    ensures Strtr(a + b, m) == [a[0]] + Strtr(a[1..] + b, m)
    ensures forall i, j :: 0 <= i < |a[1..]| && i < j <= |a[1..] + b| ==> (a[1..] + b)[i..j] !in m
  {
    var s := a + b;
    var a' := a[1..];
    forall j | 0 < j <= |s| ensures s[..j] !in m {
      assert s[..j] == s[0..j];
    }
    StrtrCopyFirst(s, m);
    assert s[1..] == a' + b;
    forall i, j | 0 <= i < |a'| && i < j <= |a' + b| ensures (a' + b)[i..j] !in m {
      assert (a' + b)[i..j] == s[i + 1..j + 1];
    }
  }

  /** Text in which no key starts, followed by a key, resolves to that text and the key's value. */
  lemma StrtrPrefixThenKey(pre: string, key: string, m: map<string, string>)
    requires key != "" && key in m
    requires forall i, j :: 0 <= i < |pre| && i < j <= |pre + key| ==> (pre + key)[i..j] !in m
    ensures Strtr(pre + key, m) == pre + m[key]
  {
    StrtrCopyPrefix(pre, key, m);
    StrtrKey(key, m);
  }

  /**
   * Resolution is not idempotent: resolving an already-resolved column name a
   * second time substitutes again inside it.
   */
  lemma StrtrNotIdempotent()
    ensures Strtr("id", map["id" := "user_id"]) == "user_id"
    ensures Strtr("user_id", map["id" := "user_id"]) == "user_user_id"
  {
    var m := map["id" := "user_id"];
    var pre, key := "user_", "id";
    StrtrKey(key, m);
    forall i, j | 0 <= i < |pre| && i < j <= |pre + key| ensures (pre + key)[i..j] !in m {
      assert (pre + key)[i..j][0] == pre[i] != 'i';
    }
    StrtrPrefixThenKey(pre, key, m);
    assert pre + key == "user_id";
  }
}
