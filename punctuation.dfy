/** The punctuation button's normaliser, `normalizePunctuation`
    (app.js:91-107): a pipeline of global regular-expression replacements.
    Each replacement is written as one left-to-right scan that, at every
    position, either matches the pattern there (greedily, as the regular
    expression engine does) and emits the replacement, or copies one
    character and moves on. */
module Punctuation {
  import opened Text

  /** The class `[ \t]`. */
  predicate IsBlank(c: char) { c == ' ' || c == '\t' }

  /** The class `[,.;!?]`. */
  predicate IsMark(c: char) { c == ',' || c == '.' || c == ';' || c == '!' || c == '?' }

  /** The class `[.!?]`. */
  predicate IsTerminal(c: char) { c == '.' || c == '!' || c == '?' }

  /** Length of the longest prefix of `s` made of spaces and tabs. */
  function BlankRun(s: string): (k: nat)
    ensures k <= |s|
    ensures forall i :: 0 <= i < k ==> IsBlank(s[i])
    ensures k < |s| ==> !IsBlank(s[k])
  {
    if s == [] || !IsBlank(s[0]) then 0 else 1 + BlankRun(s[1..])
  }

  lemma VisibleCons(c: char, s: string)
    ensures Visible([c] + s) == (if IsWs(c) then [] else [c]) + Visible(s)
  {
    assert ([c] + s)[1..] == s;
  }

  /** Dropping a whitespace prefix does not change what is visible. */
  lemma {:induction false} VisibleDropWs(s: string, k: nat)
    requires k <= |s|
    requires forall i :: 0 <= i < k ==> IsWs(s[i])
    ensures Visible(s) == Visible(s[k..])
  {
    if k > 0 {
      VisibleDropWs(s[1..], k - 1);
      assert s[1..][k - 1..] == s[k..];
    }
  }

  predicate NoWs(s: string) {
    forall k :: 0 <= k < |s| ==> !IsWs(s[k])
  }

  /** No space or tab stands right before a line feed. */
  predicate NoBlankBeforeNewline(s: string) {
    forall k :: 0 <= k < |s| - 1 && s[k + 1] == '\n' ==> !IsBlank(s[k])
  }

  // ---------------------------------------------------------------------
  // Step 1: whitespace cleanup (app.js:92)

  /** `.replace(/[ \t]+\n/g, "\n")`. */
  function DropBlanksBeforeNewline(s: string): (r: string)
    ensures Visible(r) == Visible(s)
    ensures NoBlankBeforeNewline(r)
    ensures s != [] ==> r != [] && (r[0] == '\n' <==> BlankRun(s) < |s| && s[BlankRun(s)] == '\n')
    decreases |s|
  {
    if s == [] then []
    else
      var k := BlankRun(s);
      if 0 < k < |s| && s[k] == '\n' then
        var t := DropBlanksBeforeNewline(s[k + 1..]);
        DropBlanksNewlineStep(s, k, t);
        "\n" + t
      else
        var t := DropBlanksBeforeNewline(s[1..]);
        DropBlanksKeepStep(s, t);
        [s[0]] + t
  }

  /** The branch of `DropBlanksBeforeNewline` that replaces a blank run and its newline. */
  lemma DropBlanksNewlineStep(s: string, k: nat, t: string)
    requires k == BlankRun(s) && 0 < k < |s| && s[k] == '\n'
    requires Visible(t) == Visible(s[k + 1..]) && NoBlankBeforeNewline(t)
    ensures Visible("\n" + t) == Visible(s) && NoBlankBeforeNewline("\n" + t)
  {
    VisibleDropWs(s, k + 1);
    VisibleCons('\n', t);
    NoBlankBeforeNewlineCons('\n', t);
  }

  /** The branch of `DropBlanksBeforeNewline` that keeps the first character. */
  lemma DropBlanksKeepStep(s: string, t: string)
    requires s != [] && !(0 < BlankRun(s) < |s| && s[BlankRun(s)] == '\n')
    requires Visible(t) == Visible(s[1..]) && NoBlankBeforeNewline(t)
    requires s[1..] == [] ==> t == []
    requires s[1..] != [] ==> t != [] && (t[0] == '\n' <==> BlankRun(s[1..]) < |s[1..]| && s[1..][BlankRun(s[1..])] == '\n')
    ensures Visible([s[0]] + t) == Visible(s) && NoBlankBeforeNewline([s[0]] + t)
    ensures ([s[0]] + t)[0] == '\n' <==> BlankRun(s) < |s| && s[BlankRun(s)] == '\n'
  {
    VisibleCons(s[0], s[1..]);
    VisibleCons(s[0], t);
    assert [s[0]] + s[1..] == s;
    assert IsBlank(s[0]) && t != [] ==> t[0] != '\n' by {
      if IsBlank(s[0]) && t != [] {
        var k := BlankRun(s[1..]);
        assert BlankRun(s) == 1 + k;
        assert k < |s[1..]| ==> s[1..][k] == s[1 + k];
      }
    }
    NoBlankBeforeNewlineCons(s[0], t);
  }

  lemma NoBlankBeforeNewlineCons(c: char, s: string)
    requires NoBlankBeforeNewline(s)
    requires s != [] && s[0] == '\n' ==> !IsBlank(c)
    ensures NoBlankBeforeNewline([c] + s)
  {
    var t := [c] + s;
    forall k | 0 <= k < |t| - 1 && t[k + 1] == '\n' ensures !IsBlank(t[k]) {
      if k > 0 {
        assert t[k] == s[k - 1] && t[k + 1] == s[k];
      }
    }
  }

  /** `.replace(/\s{2,}/g, " ")`: every run of two or more whitespace
      characters becomes one space; a lone whitespace character stays. */
  function CollapseWs(s: string): (r: string)
    ensures Visible(r) == Visible(s)
    ensures NoDoubleWs(r)
    ensures s != [] ==> r != [] && IsWs(r[0]) == IsWs(s[0])
    decreases |s|
  {
    if s == [] then []
    else
      var k := WsRun(s);
      if k >= 2 then
        var t := CollapseWs(s[k..]);
        VisibleDropWs(s, k);
        VisibleCons(' ', t);
        NoDoubleWsCons(' ', t);
        " " + t
      else
        var t := CollapseWs(s[1..]);
        VisibleCons(s[0], s[1..]);
        VisibleCons(s[0], t);
        assert [s[0]] + s[1..] == s;
        assert IsWs(s[0]) && s[1..] != [] ==> !IsWs(s[1]);
        NoDoubleWsCons(s[0], t);
        [s[0]] + t
  }

  /** Dropping blanks before a line feed keeps every word and every gap. */
  lemma {:induction false} DropBlanksSquash(s: string)
    ensures Squash(DropBlanksBeforeNewline(s)) == Squash(s)
    decreases |s|
  {
    if s != [] {
      var k := BlankRun(s);
      if 0 < k < |s| && s[k] == '\n' {
        var t := DropBlanksBeforeNewline(s[k + 1..]);
        assert DropBlanksBeforeNewline(s) == "\n" + t;
        DropBlanksSquash(s[k + 1..]);
        SquashBlanksNewline(s, k, t);
      } else {
        var t := DropBlanksBeforeNewline(s[1..]);
        assert DropBlanksBeforeNewline(s) == [s[0]] + t;
        DropBlanksSquash(s[1..]);
        SquashCons(s[0], t, s[1..]);
        assert [s[0]] + s[1..] == s;
      }
    }
  }

  /** A blank run and its line feed read as the line feed alone. */
  lemma SquashBlanksNewline(s: string, k: nat, t: string)
    requires k == BlankRun(s) && k < |s| && s[k] == '\n'
    requires Squash(t) == Squash(s[k + 1..])
    ensures Squash("\n" + t) == Squash(s)
  {
    var rest := s[k + 1..];
    BlanksThenNewline(s, k);
    SquashWsPrefix(s[..k + 1], rest);
    SquashWsPrefix("\n", t);
    SquashAfterWs(t, rest);
  }

  /** A blank run and the line feed after it are whitespace. */
  lemma BlanksThenNewline(s: string, k: nat)
    requires k < |s| && s[k] == '\n' && forall i :: 0 <= i < k ==> IsBlank(s[i])
    ensures s == s[..k + 1] + s[k + 1..] && AllWs(s[..k + 1])
  {
    var w := s[..k];
    assert AllWs(w) by {
      forall i | 0 <= i < k ensures IsWs(w[i]) { assert w[i] == s[i] && IsBlank(s[i]); }
    }
    assert s[..k + 1] == w + [s[k]];
    AllWsSnoc(w, s[k]);
    SplitAt(s, k + 1);
  }

  /** ... and every line feed. */
  lemma {:induction false} DropBlanksNewlines(s: string)
    ensures CountChar(DropBlanksBeforeNewline(s), '\n') == CountChar(s, '\n')
    decreases |s|
  {
    if s != [] {
      var k := BlankRun(s);
      if 0 < k < |s| && s[k] == '\n' {
        var t := DropBlanksBeforeNewline(s[k + 1..]);
        DropBlanksNewlines(s[k + 1..]);
        CountCharSkip(s, '\n', k);
        assert s[k..][1..] == s[k + 1..];
        assert ("\n" + t)[1..] == t;
      } else {
        var t := DropBlanksBeforeNewline(s[1..]);
        DropBlanksNewlines(s[1..]);
        assert ([s[0]] + t)[1..] == t;
      }
    }
  }

  /** A text without a blank before a line feed passes unchanged. */
  /** Every character is a space or a tab. */
  predicate AllBlank(w: string) {
    forall i :: 0 <= i < |w| ==> IsBlank(w[i])
  }

  lemma {:induction false} BlankRunAppend(w: string, u: string)
    requires AllBlank(w)
    ensures BlankRun(w + u) == |w| + BlankRun(u)
    decreases |w|
  {
    if w == [] {
      assert w + u == u;
    } else {
      assert IsBlank(w[0]);
      TailAppend(w, u);
      assert AllBlank(w[1..]) by {
        forall i | 0 <= i < |w| - 1 ensures IsBlank(w[1..][i]) { assert w[1..][i] == w[i + 1]; }
      }
      BlankRunAppend(w[1..], u);
    }
  }

  /** A character other than a space or a tab is kept, and the pass goes on
      after it. */
  lemma DropBlanksWord(c: char, t: string)
    requires !IsBlank(c)
    ensures DropBlanksBeforeNewline([c] + t) == [c] + DropBlanksBeforeNewline(t)
  {
    var s := [c] + t;
    assert BlankRun(s) == 0;
    assert s[1..] == t;
  }

  /** A run of spaces and tabs before a line feed is removed. */
  lemma DropBlanksRun(w: string, t: string)
    requires w != [] && AllBlank(w)
    ensures DropBlanksBeforeNewline(w + "\n" + t) == "\n" + DropBlanksBeforeNewline(t)
  {
    var u := "\n" + t;
    var s := w + u;
    assert w + "\n" + t == s;
    BlankRunAppend(w, u);
    assert BlankRun(u) == 0;
    var k := BlankRun(s);
    assert k == |w| && s[k] == '\n';
    assert s[k + 1..] == t;
    assert DropBlanksBeforeNewline(s) == "\n" + DropBlanksBeforeNewline(s[k + 1..]);
  }

  /** A run of spaces and tabs before anything but a line feed is kept. */
  lemma {:induction false} DropBlanksKeeps(w: string, t: string)
    requires AllBlank(w)
    requires t == [] || (!IsBlank(t[0]) && t[0] != '\n')
    ensures DropBlanksBeforeNewline(w + t) == w + DropBlanksBeforeNewline(t)
    decreases |w|
  {
    if w == [] {
      assert w + t == t;
    } else {
      KeepBlankStep(w, t);
      assert AllBlank(w[1..]) by {
        forall i | 0 <= i < |w| - 1 ensures IsBlank(w[1..][i]) { assert w[1..][i] == w[i + 1]; }
      }
      DropBlanksKeeps(w[1..], t);
      AppendAssoc([w[0]], w[1..], DropBlanksBeforeNewline(t));
      assert [w[0]] + w[1..] == w;
    }
  }

  lemma KeepBlankStep(w: string, t: string)
    requires w != [] && AllBlank(w)
    requires t == [] || (!IsBlank(t[0]) && t[0] != '\n')
    ensures DropBlanksBeforeNewline(w + t) == [w[0]] + DropBlanksBeforeNewline(w[1..] + t)
  {
    var s := w + t;
    BlankRunAppend(w, t);
    assert t != [] ==> BlankRun(t) == 0;
    var k := BlankRun(s);
    assert k == |w|;
    assert k < |s| ==> s[k] == t[0];
    TailAppend(w, t);
  }

  lemma {:induction false} DropBlanksSettled(s: string)
    requires NoBlankBeforeNewline(s)
    ensures DropBlanksBeforeNewline(s) == s
    decreases |s|
  {
    if s != [] {
      var k := BlankRun(s);
      assert 0 < k ==> IsBlank(s[k - 1]);
      var u := s[1..];
      forall j | 0 <= j < |u| - 1 && u[j + 1] == '\n' ensures !IsBlank(u[j]) {
        assert u[j] == s[j + 1] && u[j + 1] == s[j + 2];
      }
      DropBlanksSettled(u);
      assert [s[0]] + u == s;
    }
  }

  /** Collapsing keeps every word and every gap. */
  lemma {:induction false} CollapseWsSquash(s: string)
    ensures Squash(CollapseWs(s)) == Squash(s)
    decreases |s|
  {
    if s != [] {
      var k := WsRun(s);
      if k >= 2 {
        var t := CollapseWs(s[k..]);
        CollapseWsSquash(s[k..]);
        assert k < |s| ==> s[k..][0] == s[k];
        SquashWsPrefix(" ", t);
        assert t[0..] == t;
      } else {
        var t := CollapseWs(s[1..]);
        CollapseWsSquash(s[1..]);
        SquashCons(s[0], t, s[1..]);
        assert [s[0]] + s[1..] == s;
      }
    }
  }

  /** A run of two or more whitespace characters becomes one space; a lone
      whitespace character stays as it is. */
  lemma CollapseWsRun(w: string, t: string)
    requires w != [] && AllWs(w)
    requires t == [] || !IsWs(t[0])
    ensures CollapseWs(w + t) == (if |w| >= 2 then " " else w) + CollapseWs(t)
  {
    WsRunAll(w);
    WsRunAppend(w, t);
    var s := w + t;
    assert s[0] == w[0];
    assert s[|w|..] == t;
    if |w| == 1 {
      assert s[1..] == t && [w[0]] == w;
    }
  }

  /** A character other than whitespace is kept, and the pass goes on
      after it. */
  lemma CollapseWsWord(c: char, t: string)
    requires !IsWs(c)
    ensures CollapseWs([c] + t) == [c] + CollapseWs(t)
  {
    var s := [c] + t;
    assert WsRun(s) == 0;
    assert s[1..] == t;
  }

  /** A text already single-spaced passes unchanged. */
  lemma {:induction false} CollapseWsSettled(s: string)
    requires NoDoubleWs(s)
    ensures CollapseWs(s) == s
    decreases |s|
  {
    if s != [] {
      assert |s| >= 2 ==> !(IsWs(s[0]) && IsWs(s[1]));
      NoDoubleWsSlice(s, 1, |s|);
      CollapseWsSettled(s[1..]);
      assert [s[0]] + s[1..] == s;
    }
  }

  lemma CleanSettled(input: string)
    ensures NoBlankBeforeNewline(input) && NoDoubleWs(input) ==> CollapseWs(DropBlanksBeforeNewline(input)) == input
  {
    if NoBlankBeforeNewline(input) && NoDoubleWs(input) {
      DropBlanksSettled(input);
      CollapseWsSettled(input);
    }
  }

  /** Step 1 in full: `trimmed` of app.js:92. It changes only whitespace,
      leaves no two whitespace characters side by side, and is empty
      exactly when the input is all whitespace. */
  function Clean(input: string): (r: string)
    ensures Visible(r) == Visible(input)
    ensures NoDoubleWs(r)
    ensures r == [] <==> AllWs(input)
    ensures r != [] ==> !IsWs(r[0]) && !IsWs(r[|r| - 1])
    ensures Words(r) == Words(input)
    ensures NoBlankBeforeNewline(input) && NoDoubleWs(input) ==> r == Trim(input)
  {
    var once := CollapseWs(DropBlanksBeforeNewline(input));
    CleanSettled(input);
    DropBlanksSquash(input);
    CollapseWsSquash(DropBlanksBeforeNewline(input));
    WordsTrim(once);
    VisibleAllWs(once);
    VisibleAllWs(input);
    TrimVisible(once);
    Trim(once)
  }

  // ---------------------------------------------------------------------
  // Step 3: spacing around punctuation (app.js:96-97)

  /** `.replace(/\s+([,.;!?])/g, "$1")`: the whitespace run before a mark is
      removed. */
  function DropWsBeforeMark(s: string): (r: string)
    ensures s != [] ==> r != []
    ensures s != [] ==> (IsMark(r[0]) <==> WsRun(s) < |s| && IsMark(s[WsRun(s)]))
    ensures s != [] && !IsWs(s[0]) ==> r[0] == s[0]
    decreases |s|
  {
    if s == [] then []
    else
      var k := WsRun(s);
      if 0 < k < |s| && IsMark(s[k]) then
        [s[k]] + DropWsBeforeMark(s[k + 1..])
      else
        [s[0]] + DropWsBeforeMark(s[1..])
  }

  /** Afterwards no whitespace character precedes a mark. */
  lemma {:induction false} DropWsBeforeMarkTight(s: string)
    ensures NoWsBeforeMark(DropWsBeforeMark(s))
    decreases |s|
  {
    if s != [] {
      var k := WsRun(s);
      if 0 < k < |s| && IsMark(s[k]) {
        DropWsBeforeMarkTight(s[k + 1..]);
        MarkCons(s[k], DropWsBeforeMark(s[k + 1..]));
      } else {
        var t := DropWsBeforeMark(s[1..]);
        DropWsBeforeMarkTight(s[1..]);
        assert IsWs(s[0]) && t != [] ==> !IsMark(t[0]) by {
          if IsWs(s[0]) && t != [] {
            assert WsRun(s) == 1 + WsRun(s[1..]);
          }
        }
        MarkCons(s[0], t);
      }
    }
  }

  /** A whitespace run right before a mark is removed. */
  lemma DropWsBeforeMarkDrops(w: string, c: char, t: string)
    requires w != [] && AllWs(w) && IsMark(c)
    ensures DropWsBeforeMark(w + [c] + t) == [c] + DropWsBeforeMark(t)
  {
    var ct := [c] + t;
    var s := w + ct;
    assert w + [c] + t == s;
    WsRunAll(w);
    WsRunAppend(w, ct);
    var k := WsRun(s);
    assert k == |w| && s[k] == c && s[k + 1..] == t;
    assert 0 < k < |s| && IsMark(s[k]);
    assert DropWsBeforeMark(s) == [s[k]] + DropWsBeforeMark(s[k + 1..]);
  }

  /** A character other than whitespace is kept, and the pass goes on
      after it. */
  lemma DropWsBeforeMarkWord(c: char, t: string)
    requires !IsWs(c)
    ensures DropWsBeforeMark([c] + t) == [c] + DropWsBeforeMark(t)
  {
    var s := [c] + t;
    assert WsRun(s) == 0;
    assert s[1..] == t;
  }

  /** Any other whitespace run is kept. */
  lemma {:induction false} DropWsBeforeMarkKeeps(w: string, t: string)
    requires AllWs(w)
    requires t == [] || (!IsWs(t[0]) && !IsMark(t[0]))
    ensures DropWsBeforeMark(w + t) == w + DropWsBeforeMark(t)
    decreases |w|
  {
    if w == [] {
      assert w + t == t;
    } else {
      KeepWsStep(w, t);
      assert AllWs(w[1..]) by {
        forall i | 0 <= i < |w| - 1 ensures IsWs(w[1..][i]) { assert w[1..][i] == w[i + 1]; }
      }
      DropWsBeforeMarkKeeps(w[1..], t);
      AppendAssoc([w[0]], w[1..], DropWsBeforeMark(t));
      assert [w[0]] + w[1..] == w;
    }
  }

  lemma KeepWsStep(w: string, t: string)
    requires w != [] && AllWs(w)
    requires t == [] || (!IsWs(t[0]) && !IsMark(t[0]))
    ensures DropWsBeforeMark(w + t) == [w[0]] + DropWsBeforeMark(w[1..] + t)
  {
    var s := w + t;
    WsRunAll(w);
    WsRunAppend(w, t);
    var k := WsRun(s);
    assert k == |w|;
    assert k < |s| ==> s[k] == t[0];
    TailAppend(w, t);
  }

  /** A text with no whitespace before a mark passes unchanged. */
  lemma {:induction false} DropWsBeforeMarkSettled(s: string)
    requires NoWsBeforeMark(s)
    ensures DropWsBeforeMark(s) == s
    decreases |s|
  {
    if s != [] {
      var k := WsRun(s);
      assert 0 < k ==> IsWs(s[k - 1]);
      var u := s[1..];
      forall j | 0 <= j < |u| - 1 && IsMark(u[j + 1]) ensures !IsWs(u[j]) {
        assert u[j] == s[j + 1] && u[j + 1] == s[j + 2];
      }
      DropWsBeforeMarkSettled(u);
      assert [s[0]] + u == s;
    }
  }

  /** Step 3 only removes whitespace. */
  lemma {:induction false} DropWsBeforeMarkVisible(s: string)
    ensures Visible(DropWsBeforeMark(s)) == Visible(s)
    decreases |s|
  {
    if s != [] {
      var k := WsRun(s);
      if 0 < k < |s| && IsMark(s[k]) {
        var t := DropWsBeforeMark(s[k + 1..]);
        DropWsBeforeMarkVisible(s[k + 1..]);
        VisibleDropWs(s, k);
        assert s[k..] == [s[k]] + s[k + 1..];
        VisibleCons(s[k], s[k + 1..]);
        VisibleCons(s[k], t);
      } else {
        var t := DropWsBeforeMark(s[1..]);
        DropWsBeforeMarkVisible(s[1..]);
        VisibleCons(s[0], s[1..]);
        VisibleCons(s[0], t);
        assert [s[0]] + s[1..] == s;
      }
    }
  }

  /** Step 3 does not create doubled whitespace. */
  lemma {:induction false} DropWsBeforeMarkNoDoubleWs(s: string)
    requires NoDoubleWs(s)
    ensures NoDoubleWs(DropWsBeforeMark(s))
    decreases |s|
  {
    if s != [] {
      var k := WsRun(s);
      if 0 < k < |s| && IsMark(s[k]) {
        var t := DropWsBeforeMark(s[k + 1..]);
        NoDoubleWsSlice(s, k + 1, |s|);
        DropWsBeforeMarkNoDoubleWs(s[k + 1..]);
        NoDoubleWsCons(s[k], t);
      } else {
        var t := DropWsBeforeMark(s[1..]);
        NoDoubleWsSlice(s, 1, |s|);
        DropWsBeforeMarkNoDoubleWs(s[1..]);
        assert IsWs(s[0]) && t != [] ==> !IsWs(t[0]);
        NoDoubleWsCons(s[0], t);
      }
    }
  }


  /** No whitespace character stands right before a mark. */
  predicate NoWsBeforeMark(s: string) {
    forall k :: 0 <= k < |s| - 1 && IsMark(s[k + 1]) ==> !IsWs(s[k])
  }

  lemma MarkCons(c: char, s: string)
    requires NoWsBeforeMark(s)
    requires s != [] && IsMark(s[0]) ==> !IsWs(c)
    ensures NoWsBeforeMark([c] + s)
  {
    var t := [c] + s;
    forall k | 0 <= k < |t| - 1 && IsMark(t[k + 1]) ensures !IsWs(t[k]) {
      if k > 0 {
        assert t[k] == s[k - 1] && t[k + 1] == s[k];
      }
    }
  }

  /** `.replace(/([,.;!?])(\S)/g, "$1 $2")`: a space goes between a mark
      and the non-whitespace character after it; both are consumed, so the
      character after a mark is never itself treated as a mark. */
  function SpaceAfterMark(s: string): (r: string)
    ensures s != [] ==> r != [] && r[0] == s[0]
    ensures |r| >= |s|
    decreases |s|
  {
    if s == [] then []
    else if |s| >= 2 && IsMark(s[0]) && !IsWs(s[1]) then [s[0], ' ', s[1]] + SpaceAfterMark(s[2..])
    else [s[0]] + SpaceAfterMark(s[1..])
  }

  /** A mark and the non-whitespace character after it are split by a
      space, and the pass goes on after that character, which is never
      itself read as a mark. */
  lemma SpaceAfterMarkPair(m: char, c: char, t: string)
    requires IsMark(m) && !IsWs(c)
    ensures SpaceAfterMark([m, c] + t) == [m, ' ', c] + SpaceAfterMark(t)
  {
    assert ([m, c] + t)[2..] == t;
  }

  /** Any other character is kept, and the pass goes on after it. */
  lemma SpaceAfterMarkKeep(c: char, t: string)
    requires !IsMark(c) || t == [] || IsWs(t[0])
    ensures SpaceAfterMark([c] + t) == [c] + SpaceAfterMark(t)
  {
    assert ([c] + t)[1..] == t;
  }

  /** `x` with every space dropped that stands between a mark and a
      non-whitespace character; `prevMark` says whether the character
      before `x` is a mark. */
  function Unspace(x: string, prevMark: bool): (r: string)
    ensures |r| <= |x|
    decreases |x|
  {
    if x == [] then []
    else if prevMark && x[0] == ' ' && |x| >= 2 && !IsWs(x[1]) then Unspace(x[1..], false)
    else [x[0]] + Unspace(x[1..], IsMark(x[0]))
  }

  /** A text without whitespace has no space to take out. */
  lemma {:induction false} UnspaceNoWs(x: string, prevMark: bool)
    requires NoWs(x)
    ensures Unspace(x, prevMark) == x
    decreases |x|
  {
    if x != [] {
      assert NoWs(x[1..]) by {
        forall k | 0 <= k < |x| - 1 ensures !IsWs(x[1..][k]) {
          assert x[1..][k] == x[k + 1];
        }
      }
      UnspaceNoWs(x[1..], IsMark(x[0]));
      assert x == [x[0]] + x[1..];
    }
  }

  /** The pass inserts nothing but spaces between a mark and a
      non-whitespace character: with those spaces taken out again, the
      text is what it was. */
  lemma {:induction false} SpaceAfterMarkOnly(s: string, prevMark: bool)
    ensures Unspace(SpaceAfterMark(s), prevMark) == Unspace(s, prevMark)
    decreases |s|
  {
    if s == [] {
    } else if |s| >= 2 && IsMark(s[0]) && !IsWs(s[1]) {
      SpaceAfterMarkOnly(s[2..], IsMark(s[1]));
      UnspaceMarkSpace(s[0], s[1], SpaceAfterMark(s[2..]), prevMark);
      UnspaceMarkPair(s[0], s[1], s[2..], prevMark);
      assert s == [s[0], s[1]] + s[2..];
    } else {
      SpaceAfterMarkOnly(s[1..], false);
      SpaceAfterMarkOnly(s[1..], IsMark(s[0]));
      UnspaceKeep(s[0], SpaceAfterMark(s[1..]), s[1..], prevMark);
      assert s == [s[0]] + s[1..];
    }
  }

  /** Unspace over a non-whitespace head, whichever the flag. */
  lemma UnspaceVisibleHead(c: char, t: string, prevMark: bool)
    requires !IsWs(c)
    ensures Unspace([c] + t, prevMark) == [c] + Unspace(t, IsMark(c))
  {
    assert ([c] + t)[1..] == t;
  }

  /** Unspace over a mark and a non-whitespace character, with the space the
      pass puts between them... */
  lemma UnspaceMarkSpace(m: char, c: char, t: string, prevMark: bool)
    requires IsMark(m) && !IsWs(c)
    ensures Unspace([m, ' ', c] + t, prevMark) == [m, c] + Unspace(t, IsMark(c))
  {
    var y := [' ', c] + t;
    assert y[1..] == [c] + t && y[1] == c;
    assert Unspace(y, true) == Unspace([c] + t, false);
    UnspaceVisibleHead(c, t, false);
    assert ([m] + y)[1..] == y && [m] + y == [m, ' ', c] + t;
  }

  /** ...and without it. */
  lemma UnspaceMarkPair(m: char, c: char, t: string, prevMark: bool)
    requires IsMark(m) && !IsWs(c)
    ensures Unspace([m, c] + t, prevMark) == [m, c] + Unspace(t, IsMark(c))
  {
    UnspaceVisibleHead(c, t, true);
    assert ([m] + ([c] + t))[1..] == [c] + t && [m] + ([c] + t) == [m, c] + t;
  }

  /** Unspace over a head the pass keeps, when the rest agrees under both
      flags. */
  lemma UnspaceKeep(c: char, u: string, t: string, prevMark: bool)
    requires Unspace(u, false) == Unspace(t, false)
    requires Unspace(u, IsMark(c)) == Unspace(t, IsMark(c))
    requires |t| >= 2 ==> |u| >= 2 && u[0] == t[0]
    requires 0 < |t| < 2 ==> 0 < |u| < 2 && u[0] == t[0]
    requires t == [] ==> u == []
    ensures Unspace([c] + u, prevMark) == Unspace([c] + t, prevMark)
  {
    assert ([c] + u)[1..] == u && ([c] + t)[1..] == t;
  }

  /** Step 3's second pass only inserts whitespace, and never next to
      whitespace. */
  lemma {:induction false} SpaceAfterMarkVisible(s: string)
    ensures Visible(SpaceAfterMark(s)) == Visible(s)
    decreases |s|
  {
    if s == [] {
    } else if |s| >= 2 && IsMark(s[0]) && !IsWs(s[1]) {
      var t := SpaceAfterMark(s[2..]);
      SpaceAfterMarkVisible(s[2..]);
      assert s == [s[0], s[1]] + s[2..];
      VisibleAppend([s[0], s[1]], s[2..]);
      VisibleAppend([s[0], ' ', s[1]], t);
      VisibleSpaced(s[0], s[1]);
    } else {
      var t := SpaceAfterMark(s[1..]);
      SpaceAfterMarkVisible(s[1..]);
      VisibleCons(s[0], s[1..]);
      VisibleCons(s[0], t);
      assert [s[0]] + s[1..] == s;
    }
  }

  lemma VisibleSpaced(a: char, b: char)
    ensures Visible([a, ' ', b]) == Visible([a, b])
  {
    VisibleCons(a, [' ', b]);
    VisibleCons(' ', [b]);
    VisibleCons(a, [b]);
    assert [a, ' ', b] == [a] + [' ', b];
    assert [' ', b] == [' '] + [b];
    assert [a, b] == [a] + [b];
  }


  lemma {:induction false} SpaceAfterMarkNoDoubleWs(s: string)
    requires NoDoubleWs(s)
    ensures NoDoubleWs(SpaceAfterMark(s))
    decreases |s|
  {
    if s == [] {
    } else if |s| >= 2 && IsMark(s[0]) && !IsWs(s[1]) {
      var t := SpaceAfterMark(s[2..]);
      NoDoubleWsSlice(s, 2, |s|);
      SpaceAfterMarkNoDoubleWs(s[2..]);
      var a := [s[0], ' ', s[1]];
      assert NoDoubleWs(a);
      NoDoubleWsAppend(a, t);
    } else {
      var t := SpaceAfterMark(s[1..]);
      NoDoubleWsSlice(s, 1, |s|);
      SpaceAfterMarkNoDoubleWs(s[1..]);
      NoDoubleWsCons(s[0], t);
    }
  }

  /** Every mark directly followed by a non-whitespace character is itself
      the second of two marks that the pass has split with a space: the
      pass consumes the character after a mark, so `"a!?b"` becomes
      `"a! ?b"`. */
  predicate Spaced(r: string) {
    forall k :: 0 <= k < |r| - 1 && IsMark(r[k]) && !IsWs(r[k + 1]) ==> k >= 2 && r[k - 1] == ' ' && IsMark(r[k - 2])
  }

  /** After the pass, whitespace follows every mark other than such a
      second mark. It need not be a space: `(\S)` does not match a line
      feed or a tab, so `"a.\nb"` is kept as it is. */
  lemma {:induction false} SpaceAfterMarkSpaced(s: string)
    ensures Spaced(SpaceAfterMark(s))
    decreases |s|
  {
    if s == [] {
    } else if |s| >= 2 && IsMark(s[0]) && !IsWs(s[1]) {
      SpaceAfterMarkSpaced(s[2..]);
      SpacedChunk(s[0], s[1], SpaceAfterMark(s[2..]));
    } else {
      var t := SpaceAfterMark(s[1..]);
      SpaceAfterMarkSpaced(s[1..]);
      assert |s| >= 2 ==> t[0] == s[1];
      SpacedCons(s[0], t);
    }
  }

  lemma SpacedChunk(m: char, x: char, t: string)
    requires IsMark(m) && Spaced(t)
    ensures Spaced([m, ' ', x] + t)
  {
    var r := [m, ' ', x] + t;
    forall k | 0 <= k < |r| - 1 && IsMark(r[k]) && !IsWs(r[k + 1])
      ensures k >= 2 && r[k - 1] == ' ' && IsMark(r[k - 2])
    {
      if k >= 3 {
        assert r[k] == t[k - 3] && r[k + 1] == t[k - 2];
        assert r[k - 1] == t[k - 4] && r[k - 2] == t[k - 5];
      }
    }
  }

  lemma SpacedCons(c: char, t: string)
    requires Spaced(t)
    requires IsMark(c) && t != [] ==> IsWs(t[0])
    ensures Spaced([c] + t)
  {
    var r := [c] + t;
    forall k | 0 <= k < |r| - 1 && IsMark(r[k]) && !IsWs(r[k + 1])
      ensures k >= 2 && r[k - 1] == ' ' && IsMark(r[k - 2])
    {
      if k >= 1 {
        assert r[k] == t[k - 1] && r[k + 1] == t[k];
        if k >= 3 {
          assert r[k - 1] == t[k - 2] && r[k - 2] == t[k - 3];
        }
      }
    }
  }

  // ---------------------------------------------------------------------
  // Step 4: the pronoun "i" (app.js:98)

  /** A lowercase `i` standing alone between word boundaries. */
  predicate StandaloneI(s: string, k: int)
    requires 0 <= k < |s|
  {
    && s[k] == 'i'
    && (k == 0 || !IsWordChar(s[k - 1]))
    && (k == |s| - 1 || !IsWordChar(s[k + 1]))
  }

  /** The scan behind `.replace(/\bi\b/g, "I")`; `prevWord` says whether
      the character before `s` is a word character. */
  function CapitalizeIFrom(s: string, prevWord: bool): (r: string)
    ensures |r| == |s|
    decreases |s|
  {
    if s == [] then []
    else
      var c := if s[0] == 'i' && !prevWord && (|s| == 1 || !IsWordChar(s[1])) then 'I' else s[0];
      [c] + CapitalizeIFrom(s[1..], IsWordChar(s[0]))
  }

  lemma {:induction false} CapitalizeIFromAt(s: string, prevWord: bool, k: int)
    requires 0 <= k < |s|
    ensures CapitalizeIFrom(s, prevWord)[k]
         == if s[k] == 'i' && (if k == 0 then !prevWord else !IsWordChar(s[k - 1]))
               && (k == |s| - 1 || !IsWordChar(s[k + 1]))
            then 'I' else s[k]
    decreases |s|
  {
    if k > 0 {
      CapitalizeIFromAt(s[1..], IsWordChar(s[0]), k - 1);
    }
  }

  /** `.replace(/\bi\b/g, "I")`: exactly the standalone lowercase `i`s
      become `I`; nothing else changes. */
  function CapitalizeStandaloneI(s: string): (r: string)
    ensures |r| == |s|
    ensures forall k :: 0 <= k < |s| ==> r[k] == if StandaloneI(s, k) then 'I' else s[k]
  {
    var r := CapitalizeIFrom(s, false);
    assert forall k :: 0 <= k < |s| ==> r[k] == if StandaloneI(s, k) then 'I' else s[k] by {
      forall k | 0 <= k < |s| ensures r[k] == if StandaloneI(s, k) then 'I' else s[k] {
        CapitalizeIFromAt(s, false, k);
      }
    }
    r
  }

  // ---------------------------------------------------------------------
  // Step 5: sentence capitals (app.js:100-103)

  /** `s` starts with a sentence separator `[.!?]\s+`. */
  predicate SeparatorAt(s: string) {
    |s| >= 2 && IsTerminal(s[0]) && IsWs(s[1])
  }

  /** Length of the separator at the start of `s`: the greedy `\s+`. */
  function SeparatorLength(s: string): (e: nat)
    requires SeparatorAt(s)
    ensures 2 <= e <= |s|
    ensures forall k :: 1 <= k < e ==> IsWs(s[k])
    ensures e < |s| ==> !IsWs(s[e])
  {
    1 + WsRun(s[1..])
  }

  predicate IsSeparator(t: string) {
    |t| >= 2 && IsTerminal(t[0]) && forall k :: 1 <= k < |t| ==> IsWs(t[k])
  }

  function Concat(cs: seq<string>): string
  {
    if cs == [] then [] else cs[0] + Concat(cs[1..])
  }

  lemma {:induction false} ConcatAppend(a: seq<string>, b: seq<string>)
    ensures Concat(a + b) == Concat(a) + Concat(b)
  {
    if a == [] {
      assert a + b == b;
    } else {
      assert (a + b)[1..] == a[1..] + b;
      ConcatAppend(a[1..], b);
    }
  }

  /** The loop of `split` with a capturing separator: `cur` is the part of
      the current piece read so far. Pieces and separators alternate, there
      is one more piece than separators, and gluing them back gives the
      input. */
  function SplitFrom(s: string, cur: string): (r: seq<string>)
    ensures |r| % 2 == 1
    ensures Concat(r) == cur + s
    decreases |s|
  {
    if s == [] then
      assert Concat([cur]) == cur + Concat([]);
      [cur]
    else if SeparatorAt(s) then
      var e := SeparatorLength(s);
      var rest := SplitFrom(s[e..], []);
      ConcatAppend([cur, s[..e]], rest);
      ConcatPair(cur, s[..e]);
      AppendAssoc(cur, s[..e], s[e..]);
      assert s[..e] + s[e..] == s;
      [cur, s[..e]] + rest
    else
      AppendAssoc(cur, [s[0]], s[1..]);
      assert [s[0]] + s[1..] == s;
      SplitFrom(s[1..], cur + [s[0]])
  }

  lemma ConcatPair(x: string, y: string)
    ensures Concat([x, y]) == x + y
  {
    assert [x, y][1..] == [y];
    assert [y][1..] == [];
    assert Concat([y]) == y;
  }

  /** Every odd-numbered piece of the split is a separator. */
  lemma {:induction false} SplitFromSeparators(s: string, cur: string)
    ensures forall i :: 0 <= i < |SplitFrom(s, cur)| && i % 2 == 1 ==> IsSeparator(SplitFrom(s, cur)[i])
    decreases |s|
  {
    if s == [] {
    } else if SeparatorAt(s) {
      var e := SeparatorLength(s);
      var rest := SplitFrom(s[e..], []);
      SplitFromSeparators(s[e..], []);
      var r := [cur, s[..e]] + rest;
      assert SplitFrom(s, cur) == r;
      assert IsSeparator(r[1]) by {
        assert r[1] == s[..e];
        assert forall k :: 1 <= k < e ==> s[..e][k] == s[k];
      }
      forall i | 2 <= i < |r| && i % 2 == 1 ensures IsSeparator(r[i]) {
        assert r[i] == rest[i - 2] && (i - 2) % 2 == 1;
        assert IsSeparator(rest[i - 2]);
      }
    } else {
      SplitFromSeparators(s[1..], cur + [s[0]]);
    }
  }


  /** `out.split(/([.!?]\s+)/)`. */
  function SplitSentences(s: string): (r: seq<string>)
    ensures |r| % 2 == 1 && Concat(r) == s
  {
    SplitFrom(s, [])
  }

  /** `chunk.replace(/^\s*([a-z])/, (_, c) => c.toUpperCase())`: the whole
      match, leading whitespace included, is replaced by the capital. */
  function CapitalizeChunk(c: string): (r: string)
    ensures |r| <= |c|
    ensures AllWs(c) ==> r == c
    ensures c != [] && !IsWs(c[0]) ==> r == [UpperChar(c[0])] + c[1..]
    ensures r != c ==> r != [] && IsUpper(r[0])
    // The replacement itself, as the pattern defines it; what it means for
    // whole sentences is stated by `SentenceCaseAt`.
    ensures var k := WsRun(c);
      if k < |c| && IsLower(c[k]) then r == [UpperChar(c[k])] + c[k + 1..] else r == c
  {
    var k := WsRun(c);
    if k < |c| && IsLower(c[k]) then [UpperChar(c[k])] + c[k + 1..] else c
  }

  function CapitalizeChunks(cs: seq<string>): (r: seq<string>)
    ensures |r| == |cs| && forall i :: 0 <= i < |cs| ==> r[i] == CapitalizeChunk(cs[i])
  {
    seq(|cs|, i requires 0 <= i < |cs| => CapitalizeChunk(cs[i]))
  }

  /** Step 5 as written: split, capitalise every piece, join with "". It
      never lengthens the text. */
  function SentenceCase(s: string): (r: string)
    ensures |r| <= |s|
  {
    CapitalizeChunksShorter(SplitSentences(s));
    Concat(CapitalizeChunks(SplitSentences(s)))
  }

  lemma {:induction false} CapitalizeChunksShorter(cs: seq<string>)
    ensures |Concat(CapitalizeChunks(cs))| <= |Concat(cs)|
  {
    if cs != [] {
      var rs := CapitalizeChunks(cs);
      assert rs[1..] == CapitalizeChunks(cs[1..]);
      CapitalizeChunksShorter(cs[1..]);
    }
  }

  /** A direct scan that capitalises the first character of each sentence;
      `first` says whether a sentence starts at the front of `s`. It is the
      reference against which the split-based definition is proved. */
  function CapScan(s: string, first: bool): (r: string)
    ensures |r| == |s|
    decreases |s|
  {
    if s == [] then []
    else if SeparatorAt(s) then
      var e := SeparatorLength(s);
      s[..e] + CapScan(s[e..], true)
    else if first && IsLower(s[0]) then [UpperChar(s[0])] + CapScan(s[1..], false)
    else [s[0]] + CapScan(s[1..], false)
  }

  /** Position `j` begins a sentence: it is the front of the text, or it
      follows one of `.!?` and one or more whitespace characters. */
  ghost predicate SentenceStart(s: string, first: bool, j: int)
    requires 0 <= j < |s|
  {
    (j == 0 && first) || exists i :: 0 <= i && i + 1 < j && IsTerminal(s[i]) && forall k :: i < k < j ==> IsWs(s[k])
  }

  lemma CapitalizeChunkAppend(c: string, y: string)
    requires c != [] && !IsWs(c[0])
    ensures CapitalizeChunk(c + y) == CapitalizeChunk(c) + y
  {
    var cy := c + y;
    assert cy[0] == c[0];
    assert WsRun(c) == 0 && WsRun(cy) == 0;
    if IsLower(c[0]) {
      assert cy[1..] == c[1..] + y;
      AppendAssoc([UpperChar(c[0])], c[1..], y);
    }
  }

  /** The split-based step 5 agrees with the scan, once the piece read so
      far (or else the rest of the text) does not begin with whitespace. */
  lemma {:induction false} SplitFromScan(s: string, cur: string)
    requires cur == [] ==> s == [] || !IsWs(s[0])
    requires cur != [] ==> !IsWs(cur[0])
    ensures Concat(CapitalizeChunks(SplitFrom(s, cur))) == CapitalizeChunk(cur) + CapScan(s, cur == [])
    decreases |s|
  {
    if s == [] {
      assert CapitalizeChunks([cur]) == [CapitalizeChunk(cur)];
      assert Concat([CapitalizeChunk(cur)]) == CapitalizeChunk(cur) + Concat([]);
    } else if SeparatorAt(s) {
      var e := SeparatorLength(s);
      SplitFromScan(s[e..], []);
      SplitFromScanSeparator(s, cur);
    } else {
      SplitFromScan(s[1..], cur + [s[0]]);
      SplitFromScanChar(s, cur);
    }
  }

  /** The separator step of SplitFromScan, given the claim for the rest. */
  lemma SplitFromScanSeparator(s: string, cur: string)
    requires s != [] && SeparatorAt(s)
    requires Concat(CapitalizeChunks(SplitFrom(s[SeparatorLength(s)..], [])))
          == CapScan(s[SeparatorLength(s)..], true)
    ensures Concat(CapitalizeChunks(SplitFrom(s, cur))) == CapitalizeChunk(cur) + CapScan(s, cur == [])
  {
    var e := SeparatorLength(s);
    var sep := s[..e];
    var rest := SplitFrom(s[e..], []);
    assert SplitFrom(s, cur) == [cur, sep] + rest;
    var a := [CapitalizeChunk(cur), CapitalizeChunk(sep)];
    CapitalizeChunksAppend([cur, sep], rest);
    assert CapitalizeChunks([cur, sep]) == a;
    ConcatAppend(a, CapitalizeChunks(rest));
    ConcatPair(CapitalizeChunk(cur), CapitalizeChunk(sep));
    SeparatorChunk(s);
    CapScanSeparator(s, cur == []);
    AppendAssoc(CapitalizeChunk(cur), sep, CapScan(s[e..], true));
  }

  /** A separator piece is left alone by the capitalising callback. */
  lemma SeparatorChunk(s: string)
    requires s != [] && SeparatorAt(s)
    ensures CapitalizeChunk(s[..SeparatorLength(s)]) == s[..SeparatorLength(s)]
  {
    var sep := s[..SeparatorLength(s)];
    assert WsRun(sep) == 0;
  }

  lemma CapitalizeChunksAppend(xs: seq<string>, ys: seq<string>)
    ensures CapitalizeChunks(xs + ys) == CapitalizeChunks(xs) + CapitalizeChunks(ys)
  {
  }

  lemma CapScanSeparator(s: string, first: bool)
    requires SeparatorAt(s)
    ensures CapScan(s, first) == s[..SeparatorLength(s)] + CapScan(s[SeparatorLength(s)..], true)
  {
  }


  /** The ordinary-character step of SplitFromScan, given the claim for the rest. */
  lemma SplitFromScanChar(s: string, cur: string)
    requires s != [] && !SeparatorAt(s)
    requires cur == [] ==> !IsWs(s[0])
    requires cur != [] ==> !IsWs(cur[0])
    requires Concat(CapitalizeChunks(SplitFrom(s[1..], cur + [s[0]])))
          == CapitalizeChunk(cur + [s[0]]) + CapScan(s[1..], false)
    ensures Concat(CapitalizeChunks(SplitFrom(s, cur))) == CapitalizeChunk(cur) + CapScan(s, cur == [])
  {
    assert SplitFrom(s, cur) == SplitFrom(s[1..], cur + [s[0]]);
    if cur == [] {
      assert cur + [s[0]] == [s[0]];
      FirstCharChunk(s);
      EmptyAppend(CapScan(s, true));
      assert CapitalizeChunk(cur) == [];
    } else {
      InnerCharChunk(s, cur);
    }
  }

  /** Extending a chunk that has started by one character. */
  lemma InnerCharChunk(s: string, cur: string)
    requires s != [] && !SeparatorAt(s)
    requires cur != [] && !IsWs(cur[0])
    ensures CapitalizeChunk(cur + [s[0]]) + CapScan(s[1..], false) == CapitalizeChunk(cur) + CapScan(s, false)
  {
    CapitalizeChunkAppend(cur, [s[0]]);
    CapScanChar(s);
    AppendAssoc(CapitalizeChunk(cur), [s[0]], CapScan(s[1..], false));
  }

  lemma CapScanChar(s: string)
    requires s != [] && !SeparatorAt(s)
    ensures CapScan(s, false) == [s[0]] + CapScan(s[1..], false)
  {
  }

  /** A chunk of one character is rewritten exactly as the scan rewrites
      a text start. */
  lemma FirstCharChunk(s: string)
    requires s != [] && !SeparatorAt(s) && !IsWs(s[0])
    ensures CapitalizeChunk([s[0]]) + CapScan(s[1..], false) == CapScan(s, true)
  {
    assert WsRun([s[0]]) == 0;
    var h := if IsLower(s[0]) then UpperChar(s[0]) else s[0];
    assert CapitalizeChunk([s[0]]) == [h];
    assert CapScan(s, true) == [h] + CapScan(s[1..], false);
  }


  /** Step 5 computes the scan on any text that does not start with
      whitespace; the whitespace-dropping branch of the piece rewrite is
      then never taken. */
  lemma SentenceCaseIsScan(s: string)
    requires s == [] || !IsWs(s[0])
    ensures SentenceCase(s) == CapScan(s, true)
  {
    SplitFromScan(s, []);
    assert CapitalizeChunk([]) == [];
  }

  /** Position `j` of the scan over a text that starts with a separator. */
  lemma CapScanSeparatorAt(s: string, first: bool, j: int)
    requires 0 <= j < |s| && SeparatorAt(s)
    ensures var e := SeparatorLength(s);
      CapScan(s, first)[j] == if j < e then s[j] else CapScan(s[e..], true)[j - e]
  {
    var e := SeparatorLength(s);
    assert CapScan(s, first) == s[..e] + CapScan(s[e..], true);
  }

  /** What the scan does at each position: it capitalises a lowercase
      letter exactly where a sentence starts. */
  lemma {:induction false} CapScanAt(s: string, first: bool, j: int)
    requires 0 <= j < |s|
    ensures CapScan(s, first)[j] == if SentenceStart(s, first, j) && IsLower(s[j]) then UpperChar(s[j]) else s[j]
    decreases |s|
  {
    if SeparatorAt(s) {
      var e := SeparatorLength(s);
      var rest := s[e..];
      CapScanSeparatorAt(s, first, j);
      if j < e {
        assert !IsLower(s[j]);
      } else {
        CapScanAt(rest, true, j - e);
        assert rest[j - e] == s[j];
        if IsLower(s[j]) {
          SentenceStartAfterSeparator(s, first, j);
        }
      }
    } else if j == 0 {
      assert !SentenceStart(s, first, 0) || first;
    } else {
      assert CapScan(s, first)[j] == CapScan(s[1..], false)[j - 1];
      CapScanAt(s[1..], false, j - 1);
      SentenceStartAfterChar(s, first, j);
    }
  }

  lemma SentenceStartAfterSeparator(s: string, first: bool, j: int)
    requires SeparatorAt(s)
    requires SeparatorLength(s) <= j < |s| && !IsWs(s[j])
    ensures SentenceStart(s[SeparatorLength(s)..], true, j - SeparatorLength(s)) <==> SentenceStart(s, first, j)
  {
    SentenceStartFromRest(s, first, j);
    SentenceStartToRest(s, first, j);
  }

  lemma SentenceStartFromRest(s: string, first: bool, j: int)
    requires SeparatorAt(s)
    requires SeparatorLength(s) <= j < |s|
    ensures SentenceStart(s[SeparatorLength(s)..], true, j - SeparatorLength(s)) ==> SentenceStart(s, first, j)
  {
    var e := SeparatorLength(s);
    var rest := s[e..];
    if SentenceStart(rest, true, j - e) {
      if j == e {
        assert IsTerminal(s[0]) && forall k :: 0 < k < j ==> IsWs(s[k]);
      } else {
        var i' :| 0 <= i' && i' + 1 < j - e && IsTerminal(rest[i']) && forall k :: i' < k < j - e ==> IsWs(rest[k]);
        assert IsTerminal(s[i' + e]);
        assert forall k :: i' + e < k < j ==> IsWs(s[k]) by {
          forall k | i' + e < k < j ensures IsWs(s[k]) { assert s[k] == rest[k - e]; }
        }
      }
    }
  }

  lemma SentenceStartToRest(s: string, first: bool, j: int)
    requires SeparatorAt(s)
    requires SeparatorLength(s) <= j < |s| && !IsWs(s[j])
    ensures SentenceStart(s, first, j) ==> SentenceStart(s[SeparatorLength(s)..], true, j - SeparatorLength(s))
  {
    var e := SeparatorLength(s);
    var rest := s[e..];
    if SentenceStart(s, first, j) {
      var i :| 0 <= i && i + 1 < j && IsTerminal(s[i]) && forall k :: i < k < j ==> IsWs(s[k]);
      if i < e {
        assert i == 0;
        assert j == e;
      } else {
        assert IsTerminal(rest[i - e]);
        assert forall k :: i - e < k < j - e ==> IsWs(rest[k]) by {
          forall k | i - e < k < j - e ensures IsWs(rest[k]) { assert rest[k] == s[k + e]; }
        }
      }
    }
  }


  lemma SentenceStartAfterChar(s: string, first: bool, j: int)
    requires !SeparatorAt(s)
    requires 1 <= j < |s|
    ensures SentenceStart(s[1..], false, j - 1) <==> SentenceStart(s, first, j)
  {
    var t := s[1..];
    if SentenceStart(t, false, j - 1) {
      var i' :| 0 <= i' && i' + 1 < j - 1 && IsTerminal(t[i']) && forall k :: i' < k < j - 1 ==> IsWs(t[k]);
      assert IsTerminal(s[i' + 1]);
      assert forall k :: i' + 1 < k < j ==> IsWs(s[k]) by {
        forall k | i' + 1 < k < j ensures IsWs(s[k]) { assert s[k] == t[k - 1]; }
      }
    }
    if SentenceStart(s, first, j) {
      var i :| 0 <= i && i + 1 < j && IsTerminal(s[i]) && forall k :: i < k < j ==> IsWs(s[k]);
      assert i > 0;
      assert IsTerminal(t[i - 1]);
      assert forall k :: i - 1 < k < j - 1 ==> IsWs(t[k]) by {
        forall k | i - 1 < k < j - 1 ensures IsWs(t[k]) { assert t[k] == s[k + 1]; }
      }
    }
  }

  /** Step 5 on a text that does not start with whitespace: exactly the
      lowercase letters that begin a sentence are capitalised. */
  lemma SentenceCaseAt(s: string, j: int)
    requires s == [] || !IsWs(s[0])
    requires 0 <= j < |s|
    ensures |SentenceCase(s)| == |s|
    ensures SentenceCase(s)[j] == if SentenceStart(s, true, j) && IsLower(s[j]) then UpperChar(s[j]) else s[j]
  {
    SentenceCaseIsScan(s);
    CapScanAt(s, true, j);
  }

  // ---------------------------------------------------------------------
  // Step 6: the closing mark (app.js:105)

  /** `if (!/[.!?]$/.test(out)) out += "."`. */
  function Terminate(s: string): (r: string)
    ensures |r| > 0 && IsTerminal(r[|r| - 1])
    ensures |r| >= |s| && r[..|s|] == s
    ensures r == s <==> s != [] && IsTerminal(s[|s| - 1])
    ensures r != s ==> r == s + "."
  {
    if s != [] && IsTerminal(s[|s| - 1]) then s else s + "."
  }

  /** The text after steps 1-4, to which step 5 is applied. */
  function BeforeSentenceCase(trimmed: string): string
  {
    CapitalizeStandaloneI(SpaceAfterMark(DropWsBeforeMark(trimmed)))
  }

  // ---------------------------------------------------------------------
  // The whole normaliser

  /** `normalizePunctuation(input)` (app.js:91-107): empty exactly for
      whitespace-only input, and otherwise closed by a terminal mark. */
  function Normalize(input: string): (r: string)
    ensures r == [] <==> AllWs(input)
    ensures r != [] ==> IsTerminal(r[|r| - 1])
  {
    var trimmed := Clean(input);
    if trimmed == [] then []
    else Terminate(SentenceCase(BeforeSentenceCase(trimmed)))
  }

  /** `t` only differs from `s` by capitalised lowercase letters. */
  predicate CaseOnly(s: string, t: string) {
    |s| == |t| && forall k :: 0 <= k < |s| ==> t[k] == s[k] || (IsLower(s[k]) && t[k] == UpperChar(s[k]))
  }

  lemma CaseOnlyKeepsShape(s: string, t: string)
    requires CaseOnly(s, t)
    ensures forall k :: 0 <= k < |s| ==>
      && IsWs(t[k]) == IsWs(s[k])
      && IsWordChar(t[k]) == IsWordChar(s[k])
      && IsTerminal(t[k]) == IsTerminal(s[k])
      && (t[k] == 'i' ==> s[k] == 'i')
      && !IsLower(t[k]) == (!IsLower(s[k]) || t[k] != s[k])
    ensures NoDoubleWs(s) ==> NoDoubleWs(t)
  {
  }

  /** Changing only letter case keeps `Spaced`. */
  lemma SpacedCaseOnly(s: string, t: string)
    requires CaseOnly(s, t) && Spaced(s)
    ensures Spaced(t)
  {
    forall k | 0 <= k < |t| - 1 && IsMark(t[k]) && !IsWs(t[k + 1])
      ensures k >= 2 && t[k - 1] == ' ' && IsMark(t[k - 2])
    {
      assert s[k] == t[k];
      assert !IsWs(s[k + 1]);
      assert t[k - 1] == s[k - 1] && t[k - 2] == s[k - 2];
    }
  }

  /** Step 6 keeps `Spaced` on all but the last character. */
  lemma SpacedTerminate(d: string)
    requires Spaced(d)
    ensures var r := Terminate(d); Spaced(r[..|r| - 1])
  {
    var r := Terminate(d);
    var p := r[..|r| - 1];
    forall k | 0 <= k < |p| - 1 && IsMark(p[k]) && !IsWs(p[k + 1])
      ensures k >= 2 && p[k - 1] == ' ' && IsMark(p[k - 2])
    {
      assert p[k] == d[k] && p[k + 1] == d[k + 1];
      assert p[k - 1] == d[k - 1] && p[k - 2] == d[k - 2];
    }
  }

  /** Steps 3-4 leave the text `Spaced`. */
  lemma BeforeSentenceCaseSpaced(t: string)
    ensures Spaced(BeforeSentenceCase(t))
  {
    var b := SpaceAfterMark(DropWsBeforeMark(t));
    SpaceAfterMarkSpaced(DropWsBeforeMark(t));
    var out := CapitalizeStandaloneI(b);
    assert CaseOnly(b, out);
    SpacedCaseOnly(b, out);
  }

  /** In the result whitespace follows every mark, except a second mark
      that step 3 split off from the first, and the mark just before the
      end. A single line feed or tab after a mark survives steps 1 and 3, so
      that whitespace need not be a space. */
  lemma NormalizeSpacing(input: string)
    ensures var r := Normalize(input); r != [] ==> Spaced(r[..|r| - 1])
  {
    if !AllWs(input) {
      NormalizeUnfold(input);
      var t := Clean(input);
      BeforeSentenceCaseShape(t);
      var out := BeforeSentenceCase(t);
      BeforeSentenceCaseSpaced(t);
      SentenceCaseCaseOnly(out);
      var d := SentenceCase(out);
      SpacedCaseOnly(out, d);
      SpacedTerminate(d);
      assert Normalize(input) == Terminate(d);
    }
  }

  /** Steps 3-4 keep a cleaned text's shape: non-empty, starting with a
      non-whitespace character, and without doubled whitespace. */
  lemma BeforeSentenceCaseShape(trimmed: string)
    requires trimmed != [] && !IsWs(trimmed[0]) && NoDoubleWs(trimmed)
    ensures var out := BeforeSentenceCase(trimmed);
      out != [] && !IsWs(out[0]) && NoDoubleWs(out)
  {
    var a := DropWsBeforeMark(trimmed);
    DropWsBeforeMarkNoDoubleWs(trimmed);
    var b := SpaceAfterMark(a);
    SpaceAfterMarkNoDoubleWs(a);
    var c := CapitalizeStandaloneI(b);
    assert CaseOnly(b, c);
    CaseOnlyKeepsShape(b, c);
  }

  lemma SentenceCaseCaseOnly(s: string)
    requires s == [] || !IsWs(s[0])
    ensures CaseOnly(s, SentenceCase(s))
  {
    var r := SentenceCase(s);
    SentenceCaseIsScan(s);
    forall j | 0 <= j < |s| ensures r[j] == s[j] || (IsLower(s[j]) && r[j] == UpperChar(s[j])) {
      SentenceCaseAt(s, j);
    }
  }

  /** The pipeline of a text that is not whitespace only. */
  lemma NormalizeUnfold(input: string)
    requires !AllWs(input)
    ensures Normalize(input) == Terminate(SentenceCase(BeforeSentenceCase(Clean(input))))
  {
  }

  lemma SentenceCaseShape(out: string)
    requires out != [] && !IsWs(out[0]) && NoDoubleWs(out)
    ensures var d := SentenceCase(out);
      d != [] && !IsWs(d[0]) && NoDoubleWs(d)
  {
    SentenceCaseCaseOnly(out);
    CaseOnlyKeepsShape(out, SentenceCase(out));
  }

  lemma TerminateShape(d: string)
    requires d != [] && !IsWs(d[0]) && NoDoubleWs(d)
    ensures var r := Terminate(d);
      r != [] && !IsWs(r[0]) && NoDoubleWs(r) && IsTerminal(r[|r| - 1])
  {
    var r := Terminate(d);
    if r != d {
      NoDoubleWsSnoc(d, '.');
      assert r[0] == d[0];
    }
  }

  /** Any other input gives a text that starts with a non-whitespace
      character, has no two whitespace characters side by side, and ends in
      `.`, `!` or `?`. */
  lemma NormalizeShape(input: string)
    requires !AllWs(input)
    ensures var r := Normalize(input);
      && r != []
      && !IsWs(r[0])
      && NoDoubleWs(r)
      && IsTerminal(r[|r| - 1])
  {
    NormalizeUnfold(input);
    var t := Clean(input);
    BeforeSentenceCaseShape(t);
    var out := BeforeSentenceCase(t);
    SentenceCaseShape(out);
    TerminateShape(SentenceCase(out));
  }

  lemma NoDoubleWsSnoc(s: string, c: char)
    requires NoDoubleWs(s) && !IsWs(c)
    ensures NoDoubleWs(s + [c])
  {
    var t := s + [c];
    forall k | 0 <= k < |t| - 1 ensures !(IsWs(t[k]) && IsWs(t[k + 1])) {
      if k < |s| - 1 {
        assert t[k] == s[k] && t[k + 1] == s[k + 1];
      }
    }
  }

  /** In the result, no lowercase letter begins a sentence, and no
      lowercase `i` stands alone. */
  lemma NormalizeCapitals(input: string)
    ensures var r := Normalize(input);
      && (forall j :: 0 <= j < |r| && SentenceStart(r, true, j) ==> !IsLower(r[j]))
      && (forall k :: 0 <= k < |r| ==> !StandaloneI(r, k))
  {
    if !AllWs(input) {
      NormalizeUnfold(input);
      var t := Clean(input);
      BeforeSentenceCaseShape(t);
      var b := SpaceAfterMark(DropWsBeforeMark(t));
      TerminatedSentenceStarts(BeforeSentenceCase(t));
      TerminatedNoStandaloneI(b);
    }
  }

  /** Steps 5-6 leave no sentence starting with a lowercase letter. */
  lemma TerminatedSentenceStarts(out: string)
    requires out != [] && !IsWs(out[0])
    ensures var r := Terminate(SentenceCase(out));
      forall j :: 0 <= j < |r| && SentenceStart(r, true, j) ==> !IsLower(r[j])
  {
    var d := SentenceCase(out);
    var r := Terminate(d);
    SentenceCaseCaseOnly(out);
    forall j | 0 <= j < |r| && SentenceStart(r, true, j) ensures !IsLower(r[j]) {
      if j < |d| {
        assert r[j] == d[j];
        SentenceStartPrefix(r, d, out, j);
        SentenceCaseAt(out, j);
      }
    }
  }

  /** Steps 4-6 leave no lowercase `i` standing alone. */
  lemma TerminatedNoStandaloneI(b: string)
    requires b != [] && !IsWs(b[0])
    ensures var out := CapitalizeStandaloneI(b);
      var r := Terminate(SentenceCase(out));
      forall k :: 0 <= k < |r| ==> !StandaloneI(r, k)
  {
    var out := CapitalizeStandaloneI(b);
    assert CaseOnly(b, out);
    assert out[0] == b[0] || out[0] == 'I';
    SentenceCaseCaseOnly(out);
    NoStandaloneIIn(b, out, SentenceCase(out), Terminate(SentenceCase(out)));
  }

  lemma NoStandaloneIIn(b: string, out: string, d: string, r: string)
    requires CaseOnly(b, out) && CaseOnly(out, d)
    requires forall k :: 0 <= k < |b| ==> out[k] == if StandaloneI(b, k) then 'I' else b[k]
    requires r == d || r == d + "."
    ensures forall k :: 0 <= k < |r| ==> !StandaloneI(r, k)
  {
    forall k | 0 <= k < |r| ensures !StandaloneI(r, k) {
      NoStandaloneIAt(b, out, d, r, k);
    }
  }

  lemma NoStandaloneIAt(b: string, out: string, d: string, r: string, k: int)
    requires CaseOnly(b, out) && CaseOnly(out, d)
    requires forall k :: 0 <= k < |b| ==> out[k] == if StandaloneI(b, k) then 'I' else b[k]
    requires r == d || r == d + "."
    requires 0 <= k < |r|
    ensures !StandaloneI(r, k)
  {
    CaseOnlyKeepsShape(b, out);
    CaseOnlyKeepsShape(out, d);
    if k < |d| && r[k] == 'i' {
      assert d[k] == r[k];
      assert out[k] == 'i';
      assert !StandaloneI(b, k);
      if k > 0 { assert r[k - 1] == d[k - 1]; }
      if k < |d| - 1 { assert r[k + 1] == d[k + 1]; }
    }
  }

  /** Sentence starts in the terminated text are sentence starts before
      step 5. */
  lemma SentenceStartPrefix(r: string, d: string, out: string, j: int)
    requires CaseOnly(out, d)
    requires |r| >= |d| && r[..|d|] == d
    requires 0 <= j < |d|
    requires SentenceStart(r, true, j)
    ensures SentenceStart(out, true, j)
  {
    CaseOnlyKeepsShape(out, d);
    if j != 0 {
      var i :| 0 <= i && i + 1 < j && IsTerminal(r[i]) && forall k :: i < k < j ==> IsWs(r[k]);
      assert r[i] == d[i];
      assert IsTerminal(out[i]);
      assert forall k :: i < k < j ==> IsWs(out[k]) by {
        forall k | i < k < j ensures IsWs(out[k]) { assert r[k] == d[k]; }
      }
    }
  }

  // ---------------------------------------------------------------------
  // The normaliser is not idempotent: "a," becomes "A,." and that becomes
  // "A, ." (step 3 then finds a mark followed by a non-space). Each stage
  // of the two runs is its own small lemma, because the solver unfolds
  // every function applied to a literal.

  /** The pipeline, stage by stage. */
  lemma NormalizeVia(input: string, t: string, out: string, d: string)
    requires Clean(input) == t && t != []
    requires BeforeSentenceCase(t) == out && SentenceCase(out) == d
    ensures Normalize(input) == Terminate(d)
  {
  }

  /** Step 4 leaves a text without `i` alone. */
  lemma CapitalizeStandaloneINoI(s: string)
    requires forall k :: 0 <= k < |s| ==> s[k] != 'i'
    ensures CapitalizeStandaloneI(s) == s
  {
  }

  /** Step 5 leaves a text without lowercase letters alone. */
  lemma SentenceCaseNoLower(s: string)
    requires s == [] || !IsWs(s[0])
    requires forall k :: 0 <= k < |s| ==> !IsLower(s[k])
    ensures SentenceCase(s) == s
  {
    SentenceCaseCaseOnly(s);
  }

  /** A text without whitespace passes step 1 unchanged. */
  lemma CleanNoWs(s: string)
    requires s != [] && NoWs(s)
    ensures Clean(s) == s
  {
    DropBlanksNoWs(s);
    CollapseWsNoWs(s);
    assert WsRun(s) == 0 && WsTail(s) == 0;
  }

  lemma {:induction false} DropBlanksNoWs(s: string)
    requires NoWs(s)
    ensures DropBlanksBeforeNewline(s) == s
    decreases |s|
  {
    if s != [] {
      assert BlankRun(s) == 0;
      DropBlanksNoWs(s[1..]);
      assert [s[0]] + s[1..] == s;
    }
  }

  lemma {:induction false} CollapseWsNoWs(s: string)
    requires NoWs(s)
    ensures CollapseWs(s) == s
    decreases |s|
  {
    if s != [] {
      assert WsRun(s) == 0;
      CollapseWsNoWs(s[1..]);
      assert [s[0]] + s[1..] == s;
    }
  }

  /** A text without whitespace passes the first half of step 3 unchanged. */
  lemma {:induction false} DropWsBeforeMarkNoWs(s: string)
    requires NoWs(s)
    ensures DropWsBeforeMark(s) == s
    decreases |s|
  {
    if s != [] {
      assert WsRun(s) == 0;
      DropWsBeforeMarkNoWs(s[1..]);
      assert [s[0]] + s[1..] == s;
    }
  }

  lemma FirstRunMarks() ensures BeforeSentenceCase("a,") == "a," {
    FirstRunDrop();
    FirstRunSpacing();
    FirstRunNoI();
    MarksVia("a,", "a,");
  }

  lemma FirstRunDrop() ensures DropWsBeforeMark("a,") == "a," {
    DropWsBeforeMarkNoWs("a,");
  }

  lemma FirstRunSpacing() ensures SpaceAfterMark("a,") == "a," {
    assert SpaceAfterMark(",") == ",";
  }

  lemma FirstRunNoI() ensures CapitalizeStandaloneI("a,") == "a," {
    CapitalizeStandaloneINoI("a,");
  }

  lemma FirstRunCase() ensures SentenceCase("a,") == "A," {
    var s := "a,";
    SentenceCaseAt(s, 0);
    SentenceCaseAt(s, 1);
    assert SentenceCase(s)[0] == 'A';
  }

  lemma FirstRunTerminate() ensures Terminate("A,") == "A,." { }

  lemma SecondRunSpacing() ensures SpaceAfterMark("A,.") == "A, ." {
    assert SpaceAfterMark(",.") == ", .";
  }

  lemma SecondRunMarks() ensures BeforeSentenceCase("A,.") == "A, ." {
    SecondRunDrop();
    SecondRunSpacing();
    SecondRunNoI();
    MarksVia("A,.", "A, .");
  }

  lemma SecondRunDrop() ensures DropWsBeforeMark("A,.") == "A,." {
    DropWsBeforeMarkNoWs("A,.");
  }

  lemma SecondRunNoI() ensures CapitalizeStandaloneI("A, .") == "A, ." {
    CapitalizeStandaloneINoI("A, .");
  }

  /** Step 3 on a text that its first two passes leave or make `t`. */
  lemma MarksVia(s: string, t: string)
    requires DropWsBeforeMark(s) == s && SpaceAfterMark(s) == t && CapitalizeStandaloneI(t) == t
    ensures BeforeSentenceCase(s) == t
  {
  }

  lemma SecondRunCase() ensures SentenceCase("A, .") == "A, ." {
    SentenceCaseNoLower("A, .");
  }

  lemma SecondRunTerminate() ensures Terminate("A, .") == "A, ." { }

  lemma FirstRunClean() ensures Clean("a,") == "a," {
    CleanNoWs("a,");
  }

  lemma SecondRunClean() ensures Clean("A,.") == "A,." {
    CleanNoWs("A,.");
  }

  lemma FirstRun() ensures Normalize("a,") == "A,." {
    FirstRunClean(); FirstRunMarks(); FirstRunCase(); FirstRunTerminate();
    NormalizeVia("a,", "a,", "a,", "A,");
  }

  lemma SecondRun() ensures Normalize("A,.") == "A, ." {
    SecondRunClean(); SecondRunMarks(); SecondRunCase(); SecondRunTerminate();
    NormalizeVia("A,.", "A,.", "A, .", "A, .");
  }

  /** Normalising twice can differ from normalising once. */
  lemma NormalizeNotIdempotent()
    ensures Normalize("a,") == "A,."
    ensures Normalize(Normalize("a,")) == "A, ."
    ensures Normalize(Normalize("a,")) != Normalize("a,")
  {
    FirstRun();
    SecondRun();
  }

  // ---------------------------------------------------------------------
  // "a!?b" becomes "A! ?b.": the match after "!" consumes "?", so no
  // space is put after the "?".

  lemma MarkPairClean() ensures Clean("a!?b") == "a!?b" {
    CleanNoWs("a!?b");
  }

  lemma MarkPairSpacing() ensures SpaceAfterMark("a!?b") == "a! ?b" {
    assert SpaceAfterMark("b") == "b";
    SpaceAfterMarkPair('!', '?', "b");
    assert "!?b" == ['!', '?'] + "b";
    SpaceAfterMarkKeep('a', "!?b");
    assert "a!?b" == ['a'] + "!?b";
  }

  lemma MarkPairMarks() ensures BeforeSentenceCase("a!?b") == "a! ?b" {
    MarkPairDrop();
    MarkPairSpacing();
    MarkPairNoI();
    MarksVia("a!?b", "a! ?b");
  }

  lemma MarkPairDrop() ensures DropWsBeforeMark("a!?b") == "a!?b" {
    DropWsBeforeMarkNoWs("a!?b");
  }

  lemma MarkPairNoI() ensures CapitalizeStandaloneI("a! ?b") == "a! ?b" {
    CapitalizeStandaloneINoI("a! ?b");
  }

  lemma MarkPairScanTail() ensures CapScan("?b", true) == "?b" {
    assert !SeparatorAt("?b");
    assert CapScan("b", false) == "b";
  }

  lemma MarkPairScanSeparator() ensures CapScan("! ?b", false) == "! ?b" {
    var s := "! ?b";
    assert SeparatorAt(s);
    assert SeparatorLength(s) == 2;
    assert s[..2] == "! " && s[2..] == "?b";
    MarkPairScanTail();
  }

  lemma MarkPairCase() ensures SentenceCase("a! ?b") == "A! ?b" {
    var s := "a! ?b";
    SentenceCaseIsScan(s);
    assert !SeparatorAt(s) && s[1..] == "! ?b" && IsLower(s[0]);
    assert CapScan(s, true) == [UpperChar(s[0])] + CapScan(s[1..], false);
    MarkPairScanSeparator();
    assert UpperChar('a') == 'A';
    MarkPairJoin();
  }

  lemma MarkPairJoin() ensures ['A'] + "! ?b" == "A! ?b" {
  }

  lemma MarkPairTerminate() ensures Terminate("A! ?b") == "A! ?b." {
    var s := "A! ?b";
    assert !IsTerminal(s[|s| - 1]);
    assert s + "." == "A! ?b.";
  }

  /** Two marks in a row: only the first is followed by a space. */
  lemma NormalizeMarkPair() ensures Normalize("a!?b") == "A! ?b." {
    MarkPairClean();
    MarkPairMarks();
    MarkPairCase();
    MarkPairTerminate();
    NormalizeVia("a!?b", "a!?b", "a! ?b", "A! ?b");
  }

}
