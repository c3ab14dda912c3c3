/** The few PHP string built-ins that `login_after` relies on (`strstr`, `explode`,
    `str_replace`, `implode`) and PHP's truthiness of strings, written out so that the
    rest of the model can use them with their exact PHP behaviour. */
module Php {

  datatype Option<+T> = None | Some(value: T)

  /** A PHP string used as a condition: only "" and "0" are false. */
  predicate Truthy(s: string) {
    s != "" && s != "0"
  }

  /** `if (!$x) $x = '';` — a falsy value becomes the empty string. */
  function OrEmpty(s: string): (r: string)
    ensures Truthy(s) ==> r == s
    ensures !Truthy(s) ==> r == ""
  {
    if Truthy(s) then s else ""
  }

  /** `pat` occurs in `s` at offset `k`. */
  predicate OccursAt(s: string, pat: string, k: nat) {
    k + |pat| <= |s| && s[k..k + |pat|] == pat
  }

  /** The first offset at or after `i` where `pat` occurs in `s`. */
  function IndexFrom(s: string, pat: string, i: nat): (r: Option<nat>)
    requires |pat| > 0 && i <= |s|
    ensures r.Some? ==> i <= r.value && OccursAt(s, pat, r.value)
    decreases |s| - i
  {
    if i + |pat| > |s| then None
    else if s[i..i + |pat|] == pat then Some(i)
    else IndexFrom(s, pat, i + 1)
  }

  /** The search finds the FIRST occurrence at or after `i`: none before it, and none
      at all when it reports none. */
  lemma {:induction false} IndexFromSpec(s: string, pat: string, i: nat)
    requires |pat| > 0 && i <= |s|
    ensures var r := IndexFrom(s, pat, i);
      (r.Some? ==> forall k: nat :: i <= k < r.value ==> !OccursAt(s, pat, k)) &&
      (r.None? ==> forall k: nat :: i <= k ==> !OccursAt(s, pat, k))
    decreases |s| - i
  {
    if i + |pat| <= |s| && s[i..i + |pat|] != pat {
      IndexFromSpec(s, pat, i + 1);
    }
  }

  /** `pat` occurs somewhere in `s`. */
  predicate Contains(s: string, pat: string)
    requires |pat| > 0
  {
    IndexFrom(s, pat, 0).Some?
  }

  /** `strstr($s, $pat)` used as a condition: the tail of `s` from the first occurrence
      of `pat`, or false. An empty needle is taken as "not found". */
  predicate StrStrTruthy(s: string, pat: string) {
    |pat| > 0 &&
    match IndexFrom(s, pat, 0)
    case None => false
    case Some(k) => Truthy(s[k..])
  }

  /** `explode($sep, $s)[0]`: the text before the first `sep`, or all of `s`. */
  function ExplodeFirst(s: string, sep: string): string
    requires |sep| > 0
  {
    match IndexFrom(s, sep, 0)
    case None => s
    case Some(k) => s[..k]
  }

  /** The text after the first `sep` ("" when there is none). */
  function AfterFirst(s: string, sep: string): string
    requires |sep| > 0
  {
    match IndexFrom(s, sep, 0)
    case None => ""
    case Some(k) => s[k + |sep|..]
  }

  /** `explode($sep, $s)[1]`: the second piece. Without a separator PHP yields null,
      which every use here treats like "". */
  function ExplodeSecond(s: string, sep: string): string
    requires |sep| > 0
  {
    if Contains(s, sep) then ExplodeFirst(AfterFirst(s, sep), sep) else ""
  }

  /** `str_replace($pat, $rep, $s)`: every occurrence found by a left-to-right scan is
      replaced, and the scan resumes after the replaced text. */
  function ReplaceAll(s: string, pat: string, rep: string): string
    requires |pat| > 0
    decreases |s|
  {
    if |s| < |pat| then s
    else if s[..|pat|] == pat then rep + ReplaceAll(s[|pat|..], pat, rep)
    else [s[0]] + ReplaceAll(s[1..], pat, rep)
  }

  /** `implode($sep, $parts)`. */
  function Join(parts: seq<string>, sep: string): string
    decreases |parts|
  {
    if |parts| == 0 then ""
    else if |parts| == 1 then parts[0]
    else parts[0] + sep + Join(parts[1..], sep)
  }

  // ---------------------------------------------------------------- lemmas

  /** For a one-character needle, `Contains` is plain membership. */
  lemma ContainsChar(s: string, c: char)
    ensures Contains(s, [c]) <==> c in s
  {
    if c in s {
      var k :| 0 <= k < |s| && s[k] == c;
      assert OccursAt(s, [c], k);
      IndexFromSpec(s, [c], 0);
    }
    if Contains(s, [c]) {
      var k := IndexFrom(s, [c], 0).value;
      assert s[k..k + 1] == [c];
      assert s[k] == c;
    }
  }

  /** `strstr($s, '@')` is truthy exactly when `s` holds an `@`: the tail it returns
      starts with `@`, so it is neither "" nor "0". */
  lemma StrStrChar(s: string, c: char)
    requires c != '0'
    ensures StrStrTruthy(s, [c]) <==> c in s
  {
    ContainsChar(s, c);
    if c in s {
      var k := IndexFrom(s, [c], 0).value;
      assert s[k..k + 1] == [c];
      assert s[k..][0] == c;
    }
  }

  /** `explode` splits at the FIRST separator: the first piece holds no separator, and
      with a separator present `s` is the first piece, the separator and the rest. */
  lemma ExplodeFirstSpec(s: string, sep: string)
    requires |sep| > 0
    ensures !Contains(ExplodeFirst(s, sep), sep)
    ensures Contains(s, sep) ==> s == ExplodeFirst(s, sep) + sep + AfterFirst(s, sep)
    ensures !Contains(s, sep) ==> ExplodeFirst(s, sep) == s
  {
    var r := ExplodeFirst(s, sep);
    match IndexFrom(s, sep, 0)
    case None =>
    case Some(i) =>
      IndexFromSpec(s, sep, 0);
      assert r == s[..i];
      assert s[i..i + |sep|] == sep;
      assert s == s[..i] + s[i..i + |sep|] + s[i + |sep|..];
      if Contains(r, sep) {
        var k := IndexFrom(r, sep, 0).value;
        assert r[k..k + |sep|] == s[k..k + |sep|];
        assert OccursAt(s, sep, k);
        assert false;
      }
  }

  /** The first `c` of `a + [c] + b` is at `|a|` when `a` holds none. */
  lemma FirstCharAfterPrefix(a: string, c: char, b: string)
    requires c !in a
    ensures IndexFrom(a + [c] + b, [c], 0) == Some(|a|)
  {
    var s := a + [c] + b;
    assert s[|a|..|a| + 1] == [c];
    assert OccursAt(s, [c], |a|);
    IndexFromSpec(s, [c], 0);
    var k := IndexFrom(s, [c], 0).value;
    assert s[k..k + 1] == [c] && s[k] == c;
  }

  /** `explode('@', $v.'@'.$d)[1]` is the first `@`-piece of `d` when `v` holds no `@`. */
  lemma ExplodeSecondOfJoined(a: string, c: char, b: string)
    requires c !in a
    ensures ExplodeSecond(a + [c] + b, [c]) == ExplodeFirst(b, [c])
  {
    FirstCharAfterPrefix(a, c, b);
    assert (a + [c] + b)[|a| + 1..] == b;
  }

  /** A text in which `pat` does not occur is left unchanged by `str_replace`. */
  lemma {:induction false} ReplaceAllNoMatch(s: string, pat: string, rep: string)
    requires |pat| > 0 && !Contains(s, pat)
    ensures ReplaceAll(s, pat, rep) == s
    decreases |s|
  {
    IndexFromSpec(s, pat, 0);
    if |s| >= |pat| {
      assert !OccursAt(s, pat, 0);
      if Contains(s[1..], pat) {
        var k := IndexFrom(s[1..], pat, 0).value;
        assert s[1..][k..k + |pat|] == s[k + 1..k + 1 + |pat|];
        assert OccursAt(s, pat, k + 1);
        assert false;
      }
      ReplaceAllNoMatch(s[1..], pat, rep);
    }
  }

  /** A prefix free of the pattern's first character passes through unchanged. */
  lemma {:induction false} ReplaceAllSkips(a: string, t: string, pat: string, rep: string)
    requires |pat| > 0 && pat[0] !in a
    ensures ReplaceAll(a + t, pat, rep) == a + ReplaceAll(t, pat, rep)
    decreases |a|
  {
    if a == [] {
      assert a + t == t;
    } else {
      var s := a + t;
      assert s[0] == a[0];
      assert s[1..] == a[1..] + t;
      ReplaceAllSkips(a[1..], t, pat, rep);
      if |s| >= |pat| {
        assert s[..|pat|][0] == a[0];
        assert s[..|pat|] != pat;
      }
    }
  }

  /** An occurrence at the front is replaced and the scan resumes after it. */
  lemma ReplaceAllHead(pat: string, t: string, rep: string)
    requires |pat| > 0
    ensures ReplaceAll(pat + t, pat, rep) == rep + ReplaceAll(t, pat, rep)
  {
    assert (pat + t)[..|pat|] == pat;
    assert (pat + t)[|pat|..] == t;
  }

  /** A text without the pattern's first character is left unchanged. */
  lemma ReplaceAllFree(s: string, pat: string, rep: string)
    requires |pat| > 0 && pat[0] !in s
    ensures ReplaceAll(s, pat, rep) == s
  {
    ReplaceAllSkips(s, "", pat, rep);
    assert s + "" == s;
  }

  /** Another placeholder at the front, differing from `p` at offset `i` and holding
      `p[0]` only at its own front, is passed over by `str_replace($p, …)`. */
  lemma {:induction false} ReplaceAllOtherHead(q: string, t: string, pat: string, rep: string, i: nat)
    requires |pat| > 0 && |q| > 0
    requires i < |pat| && i < |q| && pat[i] != q[i]
    requires pat[0] !in q[1..]
    ensures ReplaceAll(q + t, pat, rep) == q + ReplaceAll(t, pat, rep)
  {
    var s := q + t;
    if |s| >= |pat| {
      calc {
        ReplaceAll(s, pat, rep);
      == { assert s[..|pat|][i] == q[i]; }
        [q[0]] + ReplaceAll(s[1..], pat, rep);
      == { assert s[1..] == q[1..] + t; }
        [q[0]] + ReplaceAll(q[1..] + t, pat, rep);
      == { ReplaceAllSkips(q[1..], t, pat, rep); }
        [q[0]] + (q[1..] + ReplaceAll(t, pat, rep));
      == { assert [q[0]] + q[1..] == q; }
        q + ReplaceAll(t, pat, rep);
      }
    }
  }

  /** `str_replace($p, …)` leaves alone a text whose only `p[0]` characters open another
      placeholder `q` (differing from `p` at offset `i`, holding `p[0]` only at its front). */
  lemma {:induction false} ReplaceAllPassesOne(x: string, q: string, c: string, pat: string, rep: string, i: nat)
    requires |pat| > 0 && |q| > 0
    requires i < |pat| && i < |q| && pat[i] != q[i]
    requires pat[0] !in q[1..] && pat[0] !in x && pat[0] !in c
    ensures ReplaceAll(x + q + c, pat, rep) == x + q + c
  {
    calc {
      ReplaceAll(x + q + c, pat, rep);
    == { assert x + q + c == x + (q + c); ReplaceAllSkips(x, q + c, pat, rep); }
      x + ReplaceAll(q + c, pat, rep);
    == { ReplaceAllOtherHead(q, c, pat, rep, i); }
      x + (q + ReplaceAll(c, pat, rep));
    == { ReplaceAllFree(c, pat, rep); }
      x + q + c;
    }
  }

  /** The same with two other placeholders `q1` and `q2`. */
  lemma {:induction false} ReplaceAllPassesTwo(a: string, q1: string, b: string, q2: string, c: string,
                                               pat: string, rep: string, i1: nat, i2: nat)
    requires |pat| > 0 && |q1| > 0 && |q2| > 0
    requires i1 < |pat| && i1 < |q1| && pat[i1] != q1[i1]
    requires i2 < |pat| && i2 < |q2| && pat[i2] != q2[i2]
    requires pat[0] !in q1[1..] && pat[0] !in q2[1..]
    requires pat[0] !in a && pat[0] !in b && pat[0] !in c
    ensures ReplaceAll(a + q1 + b + q2 + c, pat, rep) == a + q1 + b + q2 + c
  {
    calc {
      ReplaceAll(a + q1 + b + q2 + c, pat, rep);
    == { assert a + q1 + b + q2 + c == a + (q1 + (b + q2 + c)); ReplaceAllSkips(a, q1 + (b + q2 + c), pat, rep); }
      a + ReplaceAll(q1 + (b + q2 + c), pat, rep);
    == { ReplaceAllOtherHead(q1, b + q2 + c, pat, rep, i1); }
      a + (q1 + ReplaceAll(b + q2 + c, pat, rep));
    == { ReplaceAllPassesOne(b, q2, c, pat, rep, i2); }
      a + q1 + b + q2 + c;
    }
  }

  /** The one occurrence of `p` in a text whose other `p[0]` characters open another
      placeholder `q` is replaced. */
  lemma {:induction false} ReplaceAllFirstOfTwo(a: string, b: string, q: string, c: string,
                                                pat: string, rep: string, i: nat)
    requires |pat| > 0 && |q| > 0
    requires i < |pat| && i < |q| && pat[i] != q[i]
    requires pat[0] !in q[1..] && pat[0] !in a && pat[0] !in b && pat[0] !in c
    ensures ReplaceAll(a + pat + b + q + c, pat, rep) == a + rep + b + q + c
  {
    calc {
      ReplaceAll(a + pat + b + q + c, pat, rep);
    == { assert a + pat + b + q + c == a + (pat + (b + q + c)); ReplaceAllSkips(a, pat + (b + q + c), pat, rep); }
      a + ReplaceAll(pat + (b + q + c), pat, rep);
    == { ReplaceAllHead(pat, b + q + c, rep); }
      a + (rep + ReplaceAll(b + q + c, pat, rep));
    == { ReplaceAllPassesOne(b, q, c, pat, rep, i); }
      a + rep + b + q + c;
    }
  }

  /** The one occurrence of `p` in a text otherwise free of `p[0]` is replaced. */
  lemma {:induction false} ReplaceAllOne(x: string, c: string, pat: string, rep: string)
    requires |pat| > 0 && pat[0] !in x && pat[0] !in c
    ensures ReplaceAll(x + pat + c, pat, rep) == x + rep + c
  {
    calc {
      ReplaceAll(x + pat + c, pat, rep);
    == { assert x + pat + c == x + (pat + c); ReplaceAllSkips(x, pat + c, pat, rep); }
      x + ReplaceAll(pat + c, pat, rep);
    == { ReplaceAllHead(pat, c, rep); }
      x + (rep + ReplaceAll(c, pat, rep));
    == { ReplaceAllFree(c, pat, rep); }
      x + rep + c;
    }
  }

  /** `str_replace($p, $r, implode($p, $parts)) == implode($r, $parts)` when no part
      holds the first character of `p`: every occurrence is replaced. */
  lemma {:induction false} ReplaceAllJoin(parts: seq<string>, pat: string, rep: string)
    requires |pat| > 0
    requires forall i :: 0 <= i < |parts| ==> pat[0] !in parts[i]
    ensures ReplaceAll(Join(parts, pat), pat, rep) == Join(parts, rep)
    decreases |parts|
  {
    if |parts| == 1 {
      ReplaceAllFree(parts[0], pat, rep);
    } else if |parts| > 1 {
      var tail := Join(parts[1..], pat);
      assert Join(parts, pat) == parts[0] + (pat + tail);
      ReplaceAllSkips(parts[0], pat + tail, pat, rep);
      ReplaceAllHead(pat, tail, rep);
      ReplaceAllJoin(parts[1..], pat, rep);
    }
  }

  /** `str_replace($p, …)` leaves `implode($q, $parts)` unchanged when `q` is another
      placeholder that differs from `p` at offset `i`, `p[0]` is not in any part and
      occurs in `q` only at its front. */
  lemma {:induction false} ReplaceAllJoinOther(parts: seq<string>, q: string, pat: string, rep: string, i: nat)
    requires |pat| > 0 && |q| > 0
    requires i < |pat| && i < |q| && pat[i] != q[i]
    requires pat[0] !in q[1..]
    requires forall k :: 0 <= k < |parts| ==> pat[0] !in parts[k]
    ensures ReplaceAll(Join(parts, q), pat, rep) == Join(parts, q)
    decreases |parts|
  {
    if |parts| == 1 {
      ReplaceAllFree(parts[0], pat, rep);
    } else if |parts| > 1 {
      var tail := Join(parts[1..], q);
      var s := q + tail;
      assert Join(parts, q) == parts[0] + s;
      ReplaceAllSkips(parts[0], s, pat, rep);
      ReplaceAllJoinOther(parts[1..], q, pat, rep, i);
      if |s| >= |pat| {
        assert s[..|pat|][i] == q[i];
        assert s[1..] == q[1..] + tail;
        ReplaceAllSkips(q[1..], tail, pat, rep);
        assert [s[0]] + q[1..] == q;
      }
    }
  }

  /** A character in neither the parts nor the separator is not in their `implode`. */
  lemma {:induction false} JoinFree(parts: seq<string>, sep: string, c: char)
    requires c !in sep
    requires forall k :: 0 <= k < |parts| ==> c !in parts[k]
    ensures c !in Join(parts, sep)
    decreases |parts|
  {
    if |parts| > 1 {
      JoinFree(parts[1..], sep, c);
    }
  }
}
