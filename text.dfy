/** Character classes and the JavaScript string primitives that the editor
    and the normaliser rely on, over `string` (= `seq<char>`).

    JavaScript's `\s` and `trim` are Unicode-aware; this module fixes an
    ASCII reading of them: whitespace is space, tab, line feed, carriage
    return, vertical tab and form feed. The word characters of `\b` in a
    pattern without the `u` flag are exactly `[A-Za-z0-9_]`. */
module Text {

  datatype Option<+T> = None | Some(value: T)

  // ---------------------------------------------------------------------
  // Character classes

  /** ASCII reading of the regular-expression class `\s`. */
  predicate IsWs(c: char) {
    c == ' ' || c == '\t' || c == '\n' || c == '\r' || c == '\U{000B}' || c == '\U{000C}'
  }

  /** The class `\w`, whose edges `\b` detects. */
  predicate IsWordChar(c: char) {
    ('a' <= c <= 'z') || ('A' <= c <= 'Z') || ('0' <= c <= '9') || c == '_'
  }

  predicate IsLower(c: char) { 'a' <= c <= 'z' }

  predicate IsUpper(c: char) { 'A' <= c <= 'Z' }

  /** `toUpperCase` of one character, on the ASCII letters. */
  function UpperChar(c: char): (r: char)
    ensures IsLower(c) ==> IsUpper(r) && r as int == c as int - 32
    ensures !IsLower(c) ==> r == c
  {
    if IsLower(c) then (c as int - 32) as char else c
  }

  /** `toLowerCase` of one character, on the ASCII letters. */
  function LowerChar(c: char): (r: char)
    ensures IsUpper(c) ==> IsLower(r) && r as int == c as int + 32
    ensures !IsUpper(c) ==> r == c
  {
    if IsUpper(c) then (c as int + 32) as char else c
  }

  /** `String.prototype.toLowerCase` (ASCII letters only). */
  function ToLower(s: string): (r: string)
    ensures |r| == |s|
    ensures forall i :: 0 <= i < |r| ==> !IsUpper(r[i])
    ensures forall i :: 0 <= i < |r| ==> (IsLower(r[i]) <==> IsLower(s[i]) || IsUpper(s[i]))
    ensures forall i :: 0 <= i < |r| ==> !IsLower(s[i]) && !IsUpper(s[i]) ==> r[i] == s[i]
    ensures forall i :: 0 <= i < |r| ==> UpperChar(r[i]) == UpperChar(s[i])
  {
    seq(|s|, i requires 0 <= i < |s| => LowerChar(s[i]))
  }

  lemma ToLowerIdempotent(s: string)
    ensures ToLower(ToLower(s)) == ToLower(s)
  {
  }

  /** Concatenation regroups; stated once so that proofs can regroup
      without asking the solver for extensional equality. */
  lemma AppendAssoc<T>(a: seq<T>, b: seq<T>, c: seq<T>)
    ensures (a + b) + c == a + (b + c)
  {
  }

  lemma TailAppend<T>(a: seq<T>, b: seq<T>)
    requires a != []
    ensures (a + b)[1..] == a[1..] + b
  {
  }

  lemma SplitAt<T>(s: seq<T>, j: nat)
    requires j <= |s|
    ensures s == s[..j] + s[j..]
  {
  }

  lemma EmptyAppend<T>(a: seq<T>)
    ensures [] + a == a
  {
  }

  // ---------------------------------------------------------------------
  // Whitespace runs and whitespace-only views of a string

  /** Length of the longest prefix of `s` made of whitespace. */
  function WsRun(s: string): (k: nat)
    ensures k <= |s|
    ensures forall i :: 0 <= i < k ==> IsWs(s[i])
    ensures k < |s| ==> !IsWs(s[k])
  {
    if s == [] || !IsWs(s[0]) then 0 else 1 + WsRun(s[1..])
  }

  /** Length of the longest suffix of `s` made of whitespace. */
  function WsTail(s: string): (k: nat)
    ensures k <= |s|
    ensures forall i :: |s| - k <= i < |s| ==> IsWs(s[i])
    ensures k < |s| ==> !IsWs(s[|s| - k - 1])
  {
    if s == [] || !IsWs(s[|s| - 1]) then 0 else 1 + WsTail(s[..|s| - 1])
  }

  /** The non-whitespace characters of `s`, in order: what a reader sees
      once spacing is ignored. */
  function Visible(s: string): string
  {
    if s == [] then [] else (if IsWs(s[0]) then [] else [s[0]]) + Visible(s[1..])
  }

  predicate AllWs(s: string) {
    forall i :: 0 <= i < |s| ==> IsWs(s[i])
  }

  /** No two adjacent characters are both whitespace. */
  predicate NoDoubleWs(s: string) {
    forall k :: 0 <= k < |s| - 1 ==> !(IsWs(s[k]) && IsWs(s[k + 1]))
  }

  lemma {:induction false} VisibleAppend(a: string, b: string)
    ensures Visible(a + b) == Visible(a) + Visible(b)
  {
    if a == [] {
      assert a + b == b;
    } else {
      assert (a + b)[1..] == a[1..] + b;
      VisibleAppend(a[1..], b);
    }
  }

  lemma {:induction false} VisibleAllWs(s: string)
    ensures Visible(s) == [] <==> AllWs(s)
  {
    if s != [] {
      VisibleAllWs(s[1..]);
      if !IsWs(s[0]) {
        assert Visible(s)[0] == s[0];
      }
    }
  }

  lemma NoDoubleWsCons(c: char, s: string)
    ensures NoDoubleWs(s) && (s == [] || !(IsWs(c) && IsWs(s[0]))) ==> NoDoubleWs([c] + s)
  {
    var t := [c] + s;
    if NoDoubleWs(s) && (s == [] || !(IsWs(c) && IsWs(s[0]))) {
      forall k | 0 <= k < |t| - 1
        ensures !(IsWs(t[k]) && IsWs(t[k + 1]))
      {
        if k > 0 {
          assert t[k] == s[k - 1] && t[k + 1] == s[k];
        }
      }
    }
  }

  lemma NoDoubleWsAppend(a: string, b: string)
    requires NoDoubleWs(a) && NoDoubleWs(b)
    requires a != [] && b != [] ==> !(IsWs(a[|a| - 1]) && IsWs(b[0]))
    ensures NoDoubleWs(a + b)
  {
    var t := a + b;
    forall k | 0 <= k < |t| - 1
      ensures !(IsWs(t[k]) && IsWs(t[k + 1]))
    {
      if k < |a| - 1 {
        assert t[k] == a[k] && t[k + 1] == a[k + 1];
      } else if k == |a| - 1 {
        assert t[k] == a[k] && t[k + 1] == b[0];
      } else {
        assert t[k] == b[k - |a|] && t[k + 1] == b[k - |a| + 1];
      }
    }
  }

  lemma NoDoubleWsSlice(s: string, a: nat, b: nat)
    requires a <= b <= |s|
    ensures NoDoubleWs(s) ==> NoDoubleWs(s[a..b])
  {
    var t := s[a..b];
    if NoDoubleWs(s) {
    forall k | 0 <= k < |t| - 1
      ensures !(IsWs(t[k]) && IsWs(t[k + 1]))
    {
      assert t[k] == s[a + k] && t[k + 1] == s[a + k + 1];
    }
    }
  }

  // ---------------------------------------------------------------------
  // String.prototype.trim

  /** `r` is the part of `s` that starts at `a` and has only whitespace
      before and after it. */
  predicate PaddedAt(s: string, a: int, r: string) {
    0 <= a <= |s| - |r| && r == s[a..a + |r|] && AllWs(s[..a]) && AllWs(s[a + |r|..])
  }

  /** `String.prototype.trim`: drop leading and trailing whitespace. */
  function Trim(s: string): (r: string)
    ensures r == [] <==> AllWs(s)
    ensures r != [] ==> !IsWs(r[0]) && !IsWs(r[|r| - 1])
    ensures NoDoubleWs(s) ==> NoDoubleWs(r)
    ensures exists a :: PaddedAt(s, a, r)
  {
    var a := WsRun(s);
    if a == |s| then
      assert s[0..0] == [] && AllWs(s[..0]) && s[0..] == s;
      assert PaddedAt(s, 0, []);
      []
    else
      var b := WsTail(s);
      assert b < |s| - a by {
        assert !IsWs(s[a]);
      }
      var r := s[a..|s| - b];
      assert !IsWs(r[0]) && !IsWs(r[|r| - 1]);
      assert !AllWs(s) by { assert !IsWs(s[a]); }
      NoDoubleWsSlice(s, a, |s| - b);
      assert AllWs(s[..a]) by {
        forall i | 0 <= i < a ensures IsWs(s[..a][i]) { assert s[..a][i] == s[i]; }
      }
      var c := |s| - b;
      assert AllWs(s[c..]) by {
        forall i | 0 <= i < b ensures IsWs(s[c..][i]) { assert s[c..][i] == s[c + i]; }
      }
      assert PaddedAt(s, a, r);
      r
  }

  /** `trim` returns exactly the part between a whitespace prefix and a
      whitespace suffix, once that part has non-whitespace ends. */
  lemma TrimPadded(p: string, m: string, q: string)
    requires AllWs(p) && AllWs(q)
    requires m == [] || (!IsWs(m[0]) && !IsWs(m[|m| - 1]))
    ensures Trim(p + m + q) == m
  {
    var s := p + m + q;
    assert s[..|p|] == p && s[|p|..|p| + |m|] == m && s[|p| + |m|..] == q;
    assert PaddedAt(s, |p|, m);
    if m == [] {
      assert AllWs(s) by {
        forall i | 0 <= i < |s| ensures IsWs(s[i]) {
          if i < |p| { assert s[i] == s[..|p|][i]; } else { assert s[i] == s[|p|..][i - |p|]; }
        }
      }
    } else {
      assert s[|p|] == m[0];
      var r := Trim(s);
      var a :| PaddedAt(s, a, r);
      PaddedUnique(s, a, r, |p|, m);
    }
  }

  /** A part with non-whitespace ends is padded in only one way. */
  lemma PaddedUnique(s: string, a: int, r: string, a2: int, r2: string)
    requires PaddedAt(s, a, r) && PaddedAt(s, a2, r2)
    requires r != [] && !IsWs(r[0]) && !IsWs(r[|r| - 1])
    requires r2 != [] && !IsWs(r2[0]) && !IsWs(r2[|r2| - 1])
    ensures r == r2
  {
    AllWsPrefix(s, a);
    AllWsPrefix(s, a2);
    AllWsSuffix(s, a + |r|);
    AllWsSuffix(s, a2 + |r2|);
    assert s[a] == r[0] && s[a2] == r2[0];
    assert s[a + |r| - 1] == r[|r| - 1] && s[a2 + |r2| - 1] == r2[|r2| - 1];
  }

  lemma AllWsPrefix(s: string, b: int)
    requires 0 <= b <= |s| && AllWs(s[..b])
    ensures forall i :: 0 <= i < b ==> IsWs(s[i])
  {
    forall i | 0 <= i < b ensures IsWs(s[i]) { assert s[..b][i] == s[i]; }
  }

  lemma AllWsSuffix(s: string, e: int)
    requires 0 <= e <= |s| && AllWs(s[e..])
    ensures forall i :: e <= i < |s| ==> IsWs(s[i])
  {
    forall i | e <= i < |s| ensures IsWs(s[i]) { assert s[e..][i - e] == s[i]; }
  }

  lemma AllWsSnoc(w: string, c: char)
    requires AllWs(w) && IsWs(c)
    ensures AllWs(w + [c])
  {
    forall i | 0 <= i < |w| + 1 ensures IsWs((w + [c])[i]) {
      assert i < |w| ==> (w + [c])[i] == w[i];
    }
  }

  /** Trimming only removes whitespace. */
  lemma TrimVisible(s: string)
    ensures Visible(Trim(s)) == Visible(s)
  {
    var r := Trim(s);
    var a :| PaddedAt(s, a, r);
    var c := a + |r|;
    SliceThree(s, a, c);
    assert s[a..c] == r;
    VisiblePadded(s[..a], r, s[c..]);
  }

  lemma VisiblePadded(p: string, m: string, q: string)
    requires AllWs(p) && AllWs(q)
    ensures Visible(p + (m + q)) == Visible(m)
  {
    VisibleAppend(p, m + q);
    VisibleAppend(m, q);
    VisibleAllWs(p);
    VisibleAllWs(q);
    EmptyAppend(Visible(m));
  }

  lemma SliceThree<T>(s: seq<T>, a: nat, c: nat)
    requires a <= c <= |s|
    ensures s == s[..a] + (s[a..c] + s[c..])
  {
    assert s[a..c] + s[c..] == s[a..];
    assert s[..a] + s[a..] == s;
  }



  // ---------------------------------------------------------------------
  // Words: a text read with its spacing ignored but its gaps kept

  /** `s` with every maximal run of whitespace read as a single space. Two
      texts with the same `Squash` have the same words in the same order,
      and a gap in the same places. */
  function Squash(s: string): (r: string)
    ensures |r| <= |s|
    ensures r == [] <==> s == []
    ensures s != [] ==> IsWs(r[0]) == IsWs(s[0])
    decreases |s|
  {
    if s == [] then []
    else if IsWs(s[0]) then " " + Squash(s[WsRun(s)..])
    else [s[0]] + Squash(s[1..])
  }

  /** The words of `s`, in order, one space apart. */
  function Words(s: string): string
  {
    Trim(Squash(s))
  }

  lemma WsRunAll(w: string)
    requires AllWs(w)
    ensures WsRun(w) == |w|
  {
  }

  lemma {:induction false} WsRunAppend(a: string, b: string)
    ensures WsRun(a + b) == if WsRun(a) < |a| then WsRun(a) else |a| + WsRun(b)
    decreases |a|
  {
    if a == [] {
      assert a + b == b;
    } else if IsWs(a[0]) {
      assert (a + b)[1..] == a[1..] + b;
      WsRunAppend(a[1..], b);
    }
  }

  /** A whitespace prefix, however long, reads as one space. */
  lemma SquashWsPrefix(w: string, t: string)
    requires w != [] && AllWs(w)
    ensures Squash(w + t) == " " + Squash(t[WsRun(t)..])
  {
    WsRunAll(w);
    WsRunAppend(w, t);
    assert (w + t)[|w| + WsRun(t)..] == t[WsRun(t)..];
  }

  /** What follows the leading whitespace is fixed by `Squash`. */
  lemma SquashAfterWs(t: string, u: string)
    requires Squash(t) == Squash(u)
    ensures Squash(t[WsRun(t)..]) == Squash(u[WsRun(u)..])
  {
    if t != [] && IsWs(t[0]) {
      assert Squash(t)[1..] == Squash(t[WsRun(t)..]);
      assert Squash(u)[1..] == Squash(u[WsRun(u)..]);
    } else {
      assert t[0..] == t && u[0..] == u;
    }
  }

  /** `Squash` is a congruence for putting a character in front. */
  lemma SquashCons(c: char, t: string, u: string)
    requires Squash(t) == Squash(u)
    ensures Squash([c] + t) == Squash([c] + u)
  {
    if IsWs(c) {
      SquashWsPrefix([c], t);
      SquashWsPrefix([c], u);
      SquashAfterWs(t, u);
    } else {
      assert ([c] + t)[1..] == t && ([c] + u)[1..] == u;
    }
  }

  /** Squashing splits at a boundary between whitespace and a word. */
  lemma {:induction false} SquashAppend(a: string, b: string)
    requires a == [] || b == [] || !IsWs(a[|a| - 1]) || !IsWs(b[0])
    ensures Squash(a + b) == Squash(a) + Squash(b)
    decreases |a|
  {
    if a == [] {
      assert a + b == b;
    } else if !IsWs(a[0]) {
      SquashAppend(a[1..], b);
      SquashWordStep(a, b);
    } else if WsRun(a) < |a| {
      var k := WsRun(a);
      WsRunSplit(a);
      SquashAppend(a[k..], b);
      SquashWsThenWord(a[..k], a[k..], b);
    } else {
      assert IsWs(a[|a| - 1]);
      SquashAllWsAppend(a, b);
    }
  }

  /** The step of `SquashAppend` past a leading word character. */
  lemma SquashWordStep(a: string, b: string)
    requires a != [] && !IsWs(a[0])
    requires Squash(a[1..] + b) == Squash(a[1..]) + Squash(b)
    ensures Squash(a + b) == Squash(a) + Squash(b)
  {
    var ab := a + b;
    assert ab[0] == a[0];
    TailAppend(a, b);
    assert Squash(ab) == [a[0]] + Squash(a[1..] + b);
    AppendAssoc([a[0]], Squash(a[1..]), Squash(b));
  }

  /** `SquashAppend` when `a` is whitespace only. */
  lemma SquashAllWsAppend(a: string, b: string)
    requires a != [] && WsRun(a) == |a| && (b == [] || !IsWs(b[0]))
    ensures Squash(a + b) == Squash(a) + Squash(b)
  {
    assert AllWs(a);
    SquashWsPrefix(a, []);
    assert a + [] == a;
    if b != [] {
      SquashWsWord(a, b);
    }
  }

  /** The step of `SquashAppend` past a leading run of whitespace `w`
      that a word `t` ends. */
  lemma SquashWsThenWord(w: string, t: string, b: string)
    requires w != [] && AllWs(w) && t != [] && !IsWs(t[0])
    requires Squash(t + b) == Squash(t) + Squash(b)
    ensures Squash(w + t + b) == Squash(w + t) + Squash(b)
  {
    assert (t + b)[0] == t[0];
    SquashWsWord(w, t + b);
    SquashWsWord(w, t);
    AppendAssoc(w, t, b);
    AppendAssoc(" ", Squash(t), Squash(b));
  }

  /** A whitespace run before a word reads as one space. */
  lemma SquashWsWord(w: string, t: string)
    requires w != [] && AllWs(w) && t != [] && !IsWs(t[0])
    ensures Squash(w + t) == " " + Squash(t)
  {
    SquashWsPrefix(w, t);
    assert t[0..] == t;
  }

  /** A string split after its leading whitespace run. */
  lemma WsRunSplit(a: string)
    requires WsRun(a) < |a|
    ensures var k := WsRun(a);
      a == a[..k] + a[k..] && AllWs(a[..k]) && a[k..] != [] && !IsWs(a[k..][0])
  {
    var k := WsRun(a);
    forall i | 0 <= i < k ensures IsWs(a[..k][i]) { assert a[..k][i] == a[i]; }
    assert a[k..][0] == a[k];
    SplitAt(a, k);
  }

  lemma SquashWs(w: string)
    requires AllWs(w)
    ensures AllWs(Squash(w))
  {
    if w != [] {
      SquashWsPrefix(w, []);
      assert w + [] == w;
    }
  }

  lemma SquashEnds(m: string)
    requires m != [] && !IsWs(m[0]) && !IsWs(m[|m| - 1])
    ensures var r := Squash(m); !IsWs(r[0]) && !IsWs(r[|r| - 1])
  {
    var n := |m| - 1;
    assert m == m[..n] + [m[n]];
    SquashAppend(m[..n], [m[n]]);
    assert [m[n]][1..] == [];
  }

  /** Trimming keeps the words. */
  lemma WordsTrim(x: string)
    ensures Words(Trim(x)) == Words(x)
  {
    var m := Trim(x);
    if m == [] {
      SquashWs(x);
    } else {
      var a :| PaddedAt(x, a, m);
      WordsPaddedAt(x, a, m);
      WordsNoPadding(m);
    }
  }

  /** Whitespace around a text with non-whitespace ends does not change
      its words. */
  lemma WordsPaddedAt(x: string, a: int, m: string)
    requires PaddedAt(x, a, m)
    requires m != [] && !IsWs(m[0]) && !IsWs(m[|m| - 1])
    ensures Words(x) == Squash(m)
  {
    var p, q := x[..a], x[a + |m|..];
    SquashPadded(x, a, m);
    SquashWs(p);
    SquashWs(q);
    SquashEnds(m);
    TrimPadded(Squash(p), Squash(m), Squash(q));
  }

  lemma SquashPadded(x: string, a: int, m: string)
    requires PaddedAt(x, a, m)
    requires m != [] && !IsWs(m[0]) && !IsWs(m[|m| - 1])
    ensures Squash(x) == Squash(x[..a]) + Squash(m) + Squash(x[a + |m|..])
  {
    var c := a + |m|;
    SliceThree(x, a, c);
    assert x[a..c] == m;
    SquashJoin3(x[..a], m, x[c..]);
  }

  lemma SquashJoin3(p: string, m: string, q: string)
    requires m != [] && !IsWs(m[0]) && !IsWs(m[|m| - 1])
    ensures Squash(p + (m + q)) == Squash(p) + Squash(m) + Squash(q)
  {
    SquashAppend(m, q);
    var mq := m + q;
    assert mq[0] == m[0];
    SquashAppend(p, mq);
    AppendAssoc(Squash(p), Squash(m), Squash(q));
  }

  lemma WordsNoPadding(m: string)
    requires m != [] && !IsWs(m[0]) && !IsWs(m[|m| - 1])
    ensures Words(m) == Squash(m)
  {
    SquashEnds(m);
    TrimSelf(Squash(m));
  }

  lemma TrimSelf(m: string)
    requires m != [] && !IsWs(m[0]) && !IsWs(m[|m| - 1])
    ensures Trim(m) == m
  {
    assert WsRun(m) == 0 && WsTail(m) == 0;
    assert m[0..|m|] == m;
  }

  // ---------------------------------------------------------------------
  // indexOf, lastIndexOf, slice

  /** `s.indexOf(c, from)`: the first position at or after `from` (clamped
      into `0..|s|`) that holds `c`, or -1. */
  function IndexOf(s: string, c: char, from: int): (r: int)
    ensures -1 <= r < |s|
    ensures r >= 0 ==> s[r] == c && from <= r && forall k :: from <= k < r && 0 <= k ==> s[k] != c
    ensures r == -1 ==> forall k :: from <= k < |s| && 0 <= k ==> s[k] != c
    decreases |s| - from
  {
    if from < 0 then IndexOf(s, c, 0)
    else if from >= |s| then -1
    else if s[from] == c then from
    else IndexOf(s, c, from + 1)
  }

  /** Last position at or before `k` that holds `c`, or -1. */
  function LastIndexAtOrBefore(s: string, c: char, k: int): (r: int)
    requires -1 <= k < |s|
    ensures -1 <= r <= k
    ensures r >= 0 ==> s[r] == c
    ensures forall j :: r < j <= k && 0 <= j ==> s[j] != c
    decreases k + 1
  {
    if k < 0 then -1
    else if s[k] == c then k
    else LastIndexAtOrBefore(s, c, k - 1)
  }

  /** `s.lastIndexOf(c, from)`: the position argument is clamped into
      `0..|s|`, so a negative `from` still inspects index 0. */
  function LastIndexOf(s: string, c: char, from: int): (r: int)
    ensures -1 <= r < |s|
    ensures r >= 0 ==> s[r] == c && r <= if from < 0 then 0 else from
    ensures forall j :: r < j < |s| && j <= from ==> s[j] != c
    ensures from < 0 && |s| > 0 && s[0] == c ==> r == 0
  {
    var p := if from < 0 then 0 else from;
    LastIndexAtOrBefore(s, c, if p > |s| - 1 then |s| - 1 else p)
  }

  /** JavaScript's index normalisation for `slice`: negative counts from
      the end, and the result is clamped into `0..len`. */
  function SliceIndex(i: int, len: nat): (r: nat)
    ensures r <= len
    ensures 0 <= i <= len ==> r == i
  {
    if i < 0 then (if len + i < 0 then 0 else len + i)
    else if i > len then len else i
  }

  /** `s.slice(from, to)`: empty when the normalised `from` is not before
      the normalised `to`. */
  function Slice(s: string, from: int, to: int): (r: string)
    ensures 0 <= from <= to <= |s| ==> r == s[from..to]
    ensures 0 <= to <= from ==> r == []
    ensures |r| <= |s|
  {
    var a := SliceIndex(from, |s|);
    var b := SliceIndex(to, |s|);
    if a < b then s[a..b] else []
  }

  // ---------------------------------------------------------------------
  // split("\n") and join("\n")

  function CountChar(s: string, c: char): nat
  {
    if s == [] then 0 else (if s[0] == c then 1 else 0) + CountChar(s[1..], c)
  }

  /** Characters other than `c` at the front do not count. */
  lemma {:induction false} CountCharSkip(s: string, c: char, k: nat)
    requires k <= |s|
    requires forall i :: 0 <= i < k ==> s[i] != c
    ensures CountChar(s, c) == CountChar(s[k..], c)
  {
    if k > 0 {
      CountCharSkip(s[1..], c, k - 1);
      assert s[1..][k - 1..] == s[k..];
    }
  }

  /** `s.split("\n")`: the pieces between line feeds. Always one more piece
      than there are line feeds, and no piece contains one. */
  function SplitLines(s: string): (r: seq<string>)
    ensures |r| == CountChar(s, '\n') + 1
    ensures forall i :: 0 <= i < |r| ==> '\n' !in r[i]
  {
    if s == [] then [[]]
    else if s[0] == '\n' then [[]] + SplitLines(s[1..])
    else
      var t := SplitLines(s[1..]);
      [[s[0]] + t[0]] + t[1..]
  }

  lemma {:induction false} CountCharAppend(a: string, b: string, c: char)
    ensures CountChar(a + b, c) == CountChar(a, c) + CountChar(b, c)
  {
    if a == [] {
      assert a + b == b;
    } else {
      TailAppend(a, b);
      CountCharAppend(a[1..], b, c);
    }
  }

  lemma {:induction false} CountCharAbsent(a: string, c: char)
    ensures c !in a ==> CountChar(a, c) == 0
  {
    if a != [] {
      CountCharAbsent(a[1..], c);
      assert c !in a ==> a[0] != c && c !in a[1..];
    }
  }

  /** `lines.join("\n")`: of lines without a line feed, a text with exactly
      one line feed between each two of them. */
  function JoinLines(ls: seq<string>): (r: string)
    ensures (forall i :: 0 <= i < |ls| ==> '\n' !in ls[i]) ==> CountChar(r, '\n') == if ls == [] then 0 else |ls| - 1
  {
    if |ls| == 0 then []
    else if |ls| == 1 then
      CountCharAbsent(ls[0], '\n');
      ls[0]
    else
      var rest := JoinLines(ls[1..]);
      CountCharAppend(ls[0] + "\n", rest, '\n');
      CountCharAppend(ls[0], "\n", '\n');
      CountCharAbsent(ls[0], '\n');
      assert (forall i :: 0 <= i < |ls| ==> '\n' !in ls[i]) ==> forall i :: 0 <= i < |ls[1..]| ==> '\n' !in ls[1..][i];
      ls[0] + "\n" + rest
  }

  /** Splitting and rejoining on line feeds gives the text back. */
  lemma {:induction false} JoinSplit(s: string)
    ensures JoinLines(SplitLines(s)) == s
  {
    if s == [] {
    } else if s[0] == '\n' {
      JoinSplit(s[1..]);
      var t := SplitLines(s[1..]);
      assert ([[]] + t)[1..] == t;
      assert s == [] + "\n" + s[1..];
    } else {
      JoinSplit(s[1..]);
      var t := SplitLines(s[1..]);
      var r := [[s[0]] + t[0]] + t[1..];
      if |t| == 1 {
        assert JoinLines(t) == t[0];
      } else {
        assert r[1..] == t[1..];
        assert JoinLines(t) == t[0] + "\n" + JoinLines(t[1..]);
      }
    }
  }

  /** Text without a line feed, glued in front of `y`, joins `y`'s first piece. */
  lemma {:induction false} SplitLinesPrefix(x: string, y: string)
    requires '\n' !in x
    ensures SplitLines(x + y) == [x + SplitLines(y)[0]] + SplitLines(y)[1..]
  {
    if x == [] {
      assert x + y == y;
      var t := SplitLines(y);
      assert x + t[0] == t[0];
      assert t == [t[0]] + t[1..];
    } else {
      assert (x + y)[0] == x[0];
      assert (x + y)[1..] == x[1..] + y;
      SplitLinesPrefix(x[1..], y);
      assert [x[0]] + (x[1..] + SplitLines(y)[0]) == x + SplitLines(y)[0];
    }
  }

  /** Joining pieces that hold no line feed and splitting again gives the
      pieces back. */
  lemma {:induction false} SplitJoin(ls: seq<string>)
    requires |ls| >= 1
    requires forall i :: 0 <= i < |ls| ==> '\n' !in ls[i]
    ensures SplitLines(JoinLines(ls)) == ls
  {
    if |ls| == 1 {
      SplitLinesPrefix(ls[0], []);
      assert ls[0] + [] == ls[0];
    } else {
      var z := JoinLines(ls[1..]);
      assert JoinLines(ls) == ls[0] + "\n" + z;
      AppendAssoc(ls[0], "\n", z);
      SplitLinesPrefix(ls[0], "\n" + z);
      SplitJoin(ls[1..]);
      SplitLinesNewline(z);
      var w := [[]] + ls[1..];
      assert w[0] == [] && w[1..] == ls[1..];
      assert ls[0] + [] == ls[0];
      assert [ls[0]] + ls[1..] == ls;
    }
  }

  lemma SplitLinesNewline(z: string)
    ensures SplitLines("\n" + z) == [[]] + SplitLines(z)
  {
    assert ("\n" + z)[1..] == z;
  }

  /** The length of a join is the pieces' lengths plus one per separator. */
  function TotalLength(ls: seq<string>): nat
  {
    if ls == [] then 0 else |ls[0]| + TotalLength(ls[1..])
  }

  lemma {:induction false} JoinLinesLength(ls: seq<string>)
    requires |ls| >= 1
    ensures |JoinLines(ls)| == TotalLength(ls) + |ls| - 1
  {
    if |ls| > 1 {
      JoinLinesLength(ls[1..]);
    }
  }
}
