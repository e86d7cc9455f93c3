/** What the scanners' automaton means: how single quotes, double quotes and bare text read, and what is left where a
    text has been cut or peeled. */
module ShellQuoting {
  import opened ShellScan
  import opened ShellScanLaws

  // ------------------------------------------------------------- quoted text

  /** Inside quotes from just after the first character to just before the last. */
  ghost predicate Enclosed(t: string) {
    && |t| >= 2 && (t[0] == '\'' || t[0] == '"')
    && QuoteAfter(t) == Bare
    && forall i :: 0 < i < |t| ==> QuoteAfter(t[..i]) != Bare
  }

  lemma {:induction false} LevelInside(t: string, i: nat)
    requires i <= |t| && |t| >= 2 && (t[0] == '\'' || t[0] == '"')
    requires forall k :: 0 < k < |t| ==> QuoteAfter(t[..k]) != Bare
    ensures Level(t[..i]) == 0 && Depth(t[..i]) == 0
  {
    StartOfText(t);
    if i > 0 {
      LevelInside(t, i - 1);
      ReadOne(t, i - 1);
    }
  }

  /** Quoted text is inert: parens in it do not count, and separators in it do not cut. */
  lemma EnclosedIsInert(t: string)
    requires Enclosed(t)
    ensures Balanced(t) && Level(t) == 0 && Segments(t) == [t]
  {
    assert t[..|t|] == t;
    forall i | 0 <= i <= |t| ensures Level(t[..i]) == 0 { LevelInside(t, i); }
    hide QuoteAfter, Level, Depth, SeparatorAt;
    forall m | 0 <= m < |t| ensures !IsCut(t, m) {
      if m == 0 { QuoteIsNoSeparator(t); }
    }
    NeverCut(t);
  }

  lemma QuoteIsNoSeparator(t: string)
    requires |t| >= 2 && (t[0] == '\'' || t[0] == '"')
    ensures SeparatorAt(t, 0) == 0
  {}

  /** In single quotes every character but the quote is plain, the backslash too. */
  lemma {:induction false} SingleStays(w: string, i: nat)
    requires '\'' !in w && 1 <= i <= |w| + 1
    ensures QuoteAfter(("'" + w + "'")[..i]) == Single
  {
    var t := "'" + w + "'";
    StartOfText(t);
    if i > 1 {
      SingleStays(w, i - 1);
      assert t[i - 1] == w[i - 2] && w[i - 2] in w;
    }
    ReadOne(t, i - 1);
  }

  lemma SingleQuoted(w: string)
    requires '\'' !in w
    ensures var t := "'" + w + "'";
            Balanced(t) && Segments(t) == [t] && QuoteAfter("'" + w) == Single
  {
    var t := "'" + w + "'";
    var n := |w| + 1;
    forall i | 1 <= i <= n ensures QuoteAfter(t[..i]) == Single { SingleStays(w, i); }
    ReadOne(t, n);
    assert t[..n + 1] == t && t[..n] == "'" + w;
    hide QuoteAfter;
    EnclosedIsInert(t);
  }

  /** Text in which a backslash takes the character after it along, and no other double quote is left. */
  predicate Escaping(w: string) {
    if w == "" then true
    else if w[0] == '\\' then |w| >= 2 && Escaping(w[2..])
    else w[0] != '"' && Escaping(w[1..])
  }

  /** Read from inside double quotes, escaping text ends there, and never leaves them on the way. */
  lemma {:induction false} DoubleStays(head: string, w: string)
    requires Escaping(w) && QuoteAfter(head) == Double
    ensures QuoteAfter(head + w) == Double
    ensures forall i :: |head| <= i <= |head + w| ==> QuoteAfter((head + w)[..i]) != Bare
    decreases |w|
  {
    var t := head + w;
    assert t[..|head|] == head;
    if w == "" {
      assert t == head;
    } else {
      ReadOne(t, |head|);
      var step := if w[0] == '\\' then 2 else 1;
      if step == 2 { ReadOne(t, |head| + 1); }
      hide QuoteAfter;
      var next := head + w[..step];
      assert t[..|head| + step] == next;
      assert next + w[step..] == t;
      DoubleStays(next, w[step..]);
    }
  }

  lemma OpeningDouble()
    ensures QuoteAfter("\"") == Double
  {
    StartOfText("\"");
    ReadOne("\"", 0);
    assert "\""[..1] == "\"";
  }

  lemma DoubleQuoted(w: string)
    requires Escaping(w)
    ensures var t := "\"" + w + "\"";
            Balanced(t) && Segments(t) == [t]
    ensures QuoteAfter("\"" + w) == Double && QuoteAfter("\"" + w + "\\\"") == Double
  {
    var head := "\"" + w;
    OpeningDouble();
    DoubleStays("\"", w);
    var t, open := head + "\"", head + "\\\"";
    ReadOne(t, |head|);
    ReadOne(open, |head|);
    ReadOne(open, |head| + 1);
    assert t[..|head|] == head && t[..|head| + 1] == t;
    assert open[..|head|] == head && open[..|head| + 2] == open;
    forall i | 0 < i < |t| ensures QuoteAfter(t[..i]) != Bare { assert t[..i] == head[..i]; }
    hide QuoteAfter;
    EnclosedIsInert(t);
  }

  function Number(text: string, c: char): nat {
    if text == "" then 0 else Number(text[..|text| - 1], c) + (if text[|text| - 1] == c then 1 else 0)
  }

  /** Without quotes, a text is bare throughout, and its level is its opening parens less its closing ones; a backslash
      is a character like any other. */
  lemma {:induction false} BareText(text: string)
    requires '\'' !in text && '"' !in text
    ensures QuoteAfter(text) == Bare
    ensures Level(text) == Number(text, '(') - Number(text, ')')
  {
    if text != "" {
      BareText(text[..|text| - 1]);
      assert text[|text| - 1] in text;
    }
  }

  // ---------------------------------------------------------- after the cuts

  /** No segment holds a separator outside quotes and parens. */
  lemma NoSeparatorLeft(text: string, n: nat, i: nat)
    requires n < |Segments(text)| && i < |Segments(text)[n]|
    requires QuoteAfter(Segments(text)[n][..i]) == Bare && Depth(Segments(text)[n][..i]) == 0
    ensures var s := Segments(text)[n];
            && s[i] != ';' && s[i] != '|' && s[i] != '\n'
            && !(s[i] == '&' && i + 1 < |s| && s[i + 1] == '&')
  {
    var s := Segments(text)[n];
    ResplitIsIdentity(text, n);
    hide QuoteAfter, Depth;
    UncutText(s);
    assert !IsCut(s, i);
  }

  lemma UncutText(s: string)
    requires Segments(s) == [s]
    ensures FirstCut(s, 0) == |s|
  {
    hide QuoteAfter, Depth;
    var k := FirstCut(s, 0);
    assert |Segments(s)| == 1;
  }

  /** `||` is never read as two pipes: where a single pipe cuts, no pipe follows. */
  lemma {:induction false} PipesAreGreedy(text: string, n: nat)
    requires |Segments(text)| == |Separators(text)| + 1
    requires n < |Separators(text)| && Separators(text)[n] == "|"
    ensures var rest := Interleaved(Segments(text)[n + 1..], Separators(text)[n + 1..]);
            rest == "" || rest[0] != '|'
    decreases |text|
  {
    hide QuoteAfter, Depth;
    var k := FirstCut(text, 0);
    assert IsCut(text, k);
    CutMovesOn(text, k);
    var after := k + SeparatorAt(text, k);
    var rest := text[after..];
    SplittingLosesNothing(rest);
    assert Segments(text)[1..] == Segments(rest) && Separators(text)[1..] == Separators(rest);
    if n == 0 {
      assert Separators(text)[0] == text[k..after];
      assert after == k + 1 && text[k] == text[k..after][0] == '|';
    } else {
      PipesAreGreedy(rest, n - 1);
      assert Segments(text)[n + 1..] == Segments(rest)[n..] && Separators(text)[n + 1..] == Separators(rest)[n..];
    }
  }

  // ---------------------------------------------------------- after the peeling

  /** No `$(` is left among the plain pieces: what follows a plain dollar is no plain opening paren. */
  lemma {:induction false} NothingLeftToPeel(text: string, i: nat)
    requires i + 1 < |Pieces(text)| && Pieces(text)[i] == Plain('$')
    ensures Pieces(text)[i + 1] != Plain('(')
    decreases |text|
  {
    if OpensGroup(text) {
      var group, tail := TakeGroup(text);
      hide Pieces, OpensGroup;
      assert Pieces(text)[1..][i - 1] == Pieces(text)[i] && Pieces(text)[1..][i] == Pieces(text)[i + 1];
      NothingLeftToPeel(tail, i - 1);
    } else {
      if text == "" { NoPieces(); }
      TakePlain(text);
      hide Pieces;
      var rest := Pieces(text[1..]);
      assert Pieces(text)[1..][i] == Pieces(text)[i + 1] == rest[i];
      if i == 0 {
        if text[1..] == "" { NoPieces(); }
        FirstPiece(text[1..]);
      } else {
        hide OpensGroup;
        assert Pieces(text)[i] == Pieces(text)[1..][i - 1] == rest[i - 1];
        NothingLeftToPeel(text[1..], i - 1);
      }
    }
  }

  lemma FirstPiece(text: string)
    requires text != ""
    ensures Pieces(text) != [] && (Pieces(text)[0].Plain? ==> Pieces(text)[0].c == text[0])
  {
    hide FirstClose;
  }
}
