/** Laws of the scanners: nothing is lost, cuts are final, and the three agree on what a paren group is. */
module ShellScanLaws {
  import opened ShellScan

  // ------------------------------------------------------------ concatenation

  /** After balanced quotes the scan starts afresh. */
  lemma {:induction false} ReadConcat(a: string, b: string)
    requires QuoteAfter(a) == Bare
    ensures QuoteAfter(a + b) == QuoteAfter(b)
    ensures Level(a + b) == Level(a) + Level(b)
    ensures Depth(a) == 0 ==> Depth(a + b) == Depth(b)
    decreases |b|
  {
    if b == "" {
      assert a + b == a;
    } else {
      var n := |b| - 1;
      ReadConcat(a, b[..n]);
      assert (a + b)[..|a + b| - 1] == a + b[..n];
    }
  }

  lemma PrefixOfConcat(a: string, b: string, i: nat)
    requires i <= |a + b|
    ensures (a + b)[..i] == if i <= |a| then a[..i] else a + b[..i - |a|]
  {}

  lemma BalancedConcat(a: string, b: string)
    requires Balanced(a)
    ensures Balanced(a + b) <==> Balanced(b)
  {
    hide QuoteAfter, Level, Depth;
    ReadConcat(a, b);
    forall i | 0 <= i <= |b|
      ensures Level((a + b)[..|a| + i]) == Level(b[..i])
    {
      ReadConcat(a, b[..i]);
      PrefixOfConcat(a, b, |a| + i);
      if i == 0 { assert (a + b)[..|a|] == a + b[..0]; }
    }
    if Balanced(b) {
      forall i | 0 <= i <= |a + b|
        ensures Level((a + b)[..i]) >= 0
      {
        PrefixOfConcat(a, b, i);
        if i > |a| { assert Level(b[..i - |a|]) >= 0; assert i == |a| + (i - |a|); }
      }
    }
    if Balanced(a + b) {
      forall i | 0 <= i <= |b|
        ensures Level(b[..i]) >= 0
      {
        assert Level((a + b)[..|a| + i]) >= 0;
      }
    }
  }

  /** While the level has never gone below zero, forgetting unmatched parens changes nothing. */
  lemma {:induction false} DepthIsLevel(text: string, i: nat)
    requires i <= |text|
    requires forall m :: 0 <= m <= i ==> Level(text[..m]) >= 0
    ensures Depth(text[..i]) == Level(text[..i])
  {
    StartOfText(text);
    if i > 0 {
      DepthIsLevel(text, i - 1);
      ReadOne(text, i - 1);
    }
  }

  // --------------------------------------------------------------- extraction

  /** A group read at the start of the text, and the text after it. */
  lemma TakeGroup(text: string) returns (group: Piece, tail: string)
    requires OpensGroup(text)
    ensures group.Group? && Pieces(text) == [group] + Pieces(tail) && Pieces(text)[1..] == Pieces(tail)
    ensures text == "$(" + group.inner + (if group.closed then ")" else "") + tail
    ensures Rendered(Pieces(text)) == "$(" + group.inner + (if group.closed then ")" else "") + Rendered(Pieces(tail))
    ensures |text| >= 2 + |group.inner| + |tail|
  {
    hide QuoteAfter, Level, Closes;
    var body := text[2..];
    var k := FirstClose(body, 0);
    assert text == "$(" + body;
    if k < |body| {
      group, tail := Group(body[..k], true), body[k + 1..];
      ClosingParen(body, k);
      assert body == body[..k] + ")" + tail;
    } else {
      group, tail := Group(body, false), "";
      assert Pieces("") == [];
    }
    assert ([group] + Pieces(tail))[1..] == Pieces(tail);
  }

  lemma TakePlain(text: string)
    requires text != "" && !OpensGroup(text)
    ensures Pieces(text)[1..] == Pieces(text[1..])
    ensures Pieces(text) == [Plain(text[0])] + Pieces(text[1..])
  {
    assert ([Plain(text[0])] + Pieces(text[1..]))[1..] == Pieces(text[1..]);
  }

  lemma {:induction false} ExtractionLosesNothing(text: string)
    ensures Rendered(Pieces(text)) == text
    decreases |text|
  {
    hide Pieces;
    if text == "" {
      NoPieces();
    } else if OpensGroup(text) {
      var group, tail := TakeGroup(text);
      ExtractionLosesNothing(tail);
    } else {
      TakePlain(text);
      ExtractionLosesNothing(text[1..]);
    }
  }

  lemma NoPieces()
    ensures Pieces("") == []
  {}

  lemma ClosingParen(s: string, k: nat)
    requires Closes(s, k)
    ensures s[k] == ')'
  {}

  /** Every closed group is balanced; only the last piece can be a group the text never closes. */
  ghost predicate WellGrouped(pieces: seq<Piece>) {
    forall i :: 0 <= i < |pieces| && pieces[i].Group? ==>
      if pieces[i].closed then Balanced(pieces[i].inner)
      else i == |pieces| - 1 && NoneCloses(pieces[i].inner, |pieces[i].inner|)
  }

  lemma ClosedBodyIsBalanced(s: string, k: nat)
    requires FirstClose(s, 0) == k < |s|
    ensures Balanced(s[..k])
  {
    hide QuoteAfter, Level;
    NoCloseNoDebt(s, k);
    assert Closes(s, k);
    forall i | 0 <= i <= k
      ensures Level(s[..k][..i]) >= 0
    {
      assert s[..k][..i] == s[..i];
    }
  }

  lemma {:induction false} GroupsAreBalanced(text: string)
    ensures WellGrouped(Pieces(text))
    decreases |text|
  {
    hide QuoteAfter, Level, Closes, Balanced;
    if text == "" {
    } else if OpensGroup(text) {
      var body := text[2..];
      var k := FirstClose(body, 0);
      if k < |body| {
        ClosedBodyIsBalanced(body, k);
        GroupsAreBalanced(body[k + 1..]);
      }
    } else {
      GroupsAreBalanced(text[1..]);
    }
  }

  /** The group scanner and the balance check agree: a group is peeled as written exactly when its body is balanced. */
  lemma PeeledIffBalanced(r: string, tail: string)
    ensures Balanced(r) <==> Pieces("$(" + r + ")" + tail) == [Group(r, true)] + Pieces(tail)
  {
    var text := "$(" + r + ")" + tail;
    var body := r + ")" + tail;
    assert text[2..] == body && OpensGroup(text);
    var k := FirstClose(body, 0);
    assert body[..|r|] == r && body[|r| + 1..] == tail;
    if Balanced(r) {
      BalancedThenCloses(r, tail);
      assert Pieces(text) == [Group(body[..k], true)] + Pieces(body[k + 1..]);
    }
    if Pieces(text) == [Group(r, true)] + Pieces(tail) {
      assert Pieces(text)[0] == Group(r, true);
      assert k < |body| && |body[..k]| == |r|;
      ClosedBodyIsBalanced(body, k);
    }
  }

  lemma BalancedThenCloses(r: string, tail: string)
    requires Balanced(r)
    ensures FirstClose(r + ")" + tail, 0) == |r|
  {
    hide QuoteAfter, Level;
    var body := r + ")" + tail;
    assert body[..|r|] == r;
    assert Closes(body, |r|);
    forall i | 0 <= i < |r|
      ensures !Closes(body, i)
    {
      assert body[..i] == r[..i] && body[i] == r[i];
      ReadOne(r, i);
      assert Level(r[..i + 1]) >= 0;
    }
    assert forall m :: 0 <= m < FirstClose(body, 0) ==> !Closes(body, m);
  }

  /** Quotes are tracked inside a group only: an opening quote outside does not keep a group from being peeled. */
  lemma OuterQuotesDoNotProtect(quote: char, r: string, tail: string)
    requires (quote == '\'' || quote == '"') && Balanced(r)
    ensures Pieces([quote] + ("$(" + r + ")" + tail)) == [Plain(quote), Group(r, true)] + Pieces(tail)
  {
    hide Balanced, Pieces;
    var text := "$(" + r + ")" + tail;
    PeeledIffBalanced(r, tail);
    assert ([quote] + text)[1..] == text;
    TakePlain([quote] + text);
  }

  // ------------------------------------------------ quotes outside a group

  /** Where the scan of the plain characters stands after `s`, from state `q` on. */
  function QuoteFrom(q: Quote, s: string): Quote
    decreases |s|
  {
    if s == "" then q else QuoteFrom(NextQuote(q, s[0]), s[1..])
  }

  lemma {:induction false} QuoteFromSnoc(q: Quote, s: string, c: char)
    ensures QuoteFrom(q, s + [c]) == NextQuote(QuoteFrom(q, s), c)
    decreases |s|
  {
    if s == "" {
      assert s + [c] == [c] && [c][1..] == "";
    } else {
      assert (s + [c])[1..] == s[1..] + [c];
      QuoteFromSnoc(NextQuote(q, s[0]), s[1..], c);
    }
  }

  lemma {:induction false} QuoteFromBare(s: string)
    ensures QuoteFrom(Bare, s) == QuoteAfter(s)
  {
    if s != "" {
      QuoteFromBare(s[..|s| - 1]);
      QuoteFromSnoc(Bare, s[..|s| - 1], s[|s| - 1]);
      assert s == s[..|s| - 1] + [s[|s| - 1]];
    }
  }

  /** The extraction that leaves a `$(` alone where the quotes around it protect it; which states do is for the shell to
      say. */
  function PiecesInQuotes(protects: Quote -> bool, text: string, q: Quote): seq<Piece>
    decreases |text|
  {
    if text == "" then []
    else if OpensGroup(text) && !protects(q) then
      var body := text[2..];
      var k := FirstClose(body, 0);
      if k < |body| then [Group(body[..k], true)] + PiecesInQuotes(protects, body[k + 1..], q) else [Group(body, false)]
    else [Plain(text[0])] + PiecesInQuotes(protects, text[1..], NextQuote(q, text[0]))
  }

  /** No group stands where the plain text before it leaves a quote open that protects it. */
  ghost predicate Unprotected(protects: Quote -> bool, pieces: seq<Piece>, q: Quote) {
    forall i :: 0 <= i < |pieces| && pieces[i].Group? ==> !protects(QuoteFrom(q, Outside(pieces[..i])))
  }

  lemma UnprotectedCons(protects: Quote -> bool, first: Piece, rest: seq<Piece>, q: Quote)
    ensures Unprotected(protects, [first] + rest, q) <==>
              if first.Group? then !protects(q) && Unprotected(protects, rest, q)
              else Unprotected(protects, rest, NextQuote(q, first.c))
  {
    var all := [first] + rest;
    var next := if first.Group? then q else NextQuote(q, first.c);
    assert Outside(all[..0]) == "";
    forall i | 0 <= i < |rest|
      ensures QuoteFrom(q, Outside(all[..i + 1])) == QuoteFrom(next, Outside(rest[..i])) && all[i + 1] == rest[i]
    {
      assert all[..i + 1] == [first] + rest[..i];
      assert ([first] + rest[..i])[1..] == rest[..i];
      if first.Plain? { assert ([first.c] + Outside(rest[..i]))[1..] == Outside(rest[..i]); }
      else { assert [] + Outside(rest[..i]) == Outside(rest[..i]); }
    }
    if Unprotected(protects, all, q) {
      forall i | 0 <= i < |rest| && rest[i].Group? ensures !protects(QuoteFrom(next, Outside(rest[..i]))) {
        assert all[i + 1].Group?;
      }
      assert all[0] == first;
    }
    if (first.Group? ==> !protects(q)) && Unprotected(protects, rest, next) {
      forall i | 0 <= i < |all| && all[i].Group? ensures !protects(QuoteFrom(q, Outside(all[..i]))) {
        if i > 0 { assert rest[i - 1] == all[i - 1 + 1]; }
      }
    }
  }

  lemma {:induction false} SamePiecesIffUnprotected(protects: Quote -> bool, text: string, q: Quote)
    ensures PiecesInQuotes(protects, text, q) == Pieces(text) <==> Unprotected(protects, Pieces(text), q)
    decreases |text|
  {
    hide Unprotected, FirstClose, Pieces, NextQuote;
    if text == "" {
      NoPieces();
      NothingProtected(protects, q);
    } else if OpensGroup(text) {
      var group, tail := TakeGroup(text);
      UnprotectedCons(protects, group, Pieces(tail), q);
      SamePiecesIffUnprotected(protects, tail, q);
      if protects(q) {
        TakesPlainInQuotes(protects, text, q);
      } else {
        TakesGroupInQuotes(protects, text, q, group, tail);
        SameTails(group, PiecesInQuotes(protects, tail, q), Pieces(tail));
      }
    } else {
      TakePlain(text);
      TakesPlainInQuotes(protects, text, q);
      UnprotectedCons(protects, Plain(text[0]), Pieces(text[1..]), q);
      SamePiecesIffUnprotected(protects, text[1..], NextQuote(q, text[0]));
      SameTails(Plain(text[0]), PiecesInQuotes(protects, text[1..], NextQuote(q, text[0])), Pieces(text[1..]));
    }
  }

  lemma NothingProtected(protects: Quote -> bool, q: Quote)
    ensures Unprotected(protects, [], q)
  {}

  lemma SameTails(first: Piece, a: seq<Piece>, b: seq<Piece>)
    ensures [first] + a == [first] + b <==> a == b
  {
    assert ([first] + a)[1..] == a && ([first] + b)[1..] == b;
  }

  lemma TakesPlainInQuotes(protects: Quote -> bool, text: string, q: Quote)
    requires text != "" && (!OpensGroup(text) || protects(q))
    ensures PiecesInQuotes(protects, text, q) == [Plain(text[0])]
            + PiecesInQuotes(protects, text[1..], NextQuote(q, text[0]))
    ensures PiecesInQuotes(protects, text, q)[0].Plain?
  {}

  lemma TakesGroupInQuotes(protects: Quote -> bool, text: string, q: Quote, group: Piece, tail: string)
    requires OpensGroup(text) && !protects(q) && group.Group? && Pieces(text) == [group] + Pieces(tail)
    requires text == "$(" + group.inner + (if group.closed then ")" else "") + tail
    ensures PiecesInQuotes(protects, text, q) == [group] + PiecesInQuotes(protects, tail, q)
  {
    var body := text[2..];
    var k := FirstClose(body, 0);
    assert Pieces(text)[0] == group;
    if k < |body| {
      assert body[k + 1..] == tail;
    } else {
      assert tail == "";
    }
  }

  /** The extraction is the one that heeds the quotes around a group exactly when no group it peels stands inside such
      quotes. */
  lemma QuotesAreHeededIffNoneProtects(protects: Quote -> bool, text: string)
    ensures PiecesInQuotes(protects, text, Bare) == Pieces(text) <==>
              forall i :: 0 <= i < |Pieces(text)| && Pieces(text)[i].Group? ==>
                    !protects(QuoteAfter(Outside(Pieces(text)[..i])))
  {
    hide Pieces, QuoteFrom, QuoteAfter;
    SamePiecesIffUnprotected(protects, text, Bare);
    forall i | 0 <= i <= |Pieces(text)|
      ensures QuoteFrom(Bare, Outside(Pieces(text)[..i])) == QuoteAfter(Outside(Pieces(text)[..i]))
    {
      QuoteFromBare(Outside(Pieces(text)[..i]));
    }
  }

  ghost predicate NoGroups(text: string) {
    forall i :: 0 <= i < |text| - 1 ==> !(text[i] == '$' && text[i + 1] == '(')
  }

  lemma {:induction false} NothingToExtract(text: string)
    requires NoGroups(text)
    ensures Outside(Pieces(text)) == text && Inners(Pieces(text)) == []
    decreases |text|
  {
    if text != "" {
      var rest := text[1..];
      forall i | 0 <= i < |rest| - 1
        ensures !(rest[i] == '$' && rest[i + 1] == '(')
      {
        assert !(text[i + 1] == '$' && text[i + 1 + 1] == '(');
      }
      NothingToExtract(rest);
      TakePlain(text);
    }
  }

  function TotalLength(texts: seq<string>): nat {
    if texts == [] then 0 else |texts[0]| + TotalLength(texts[1..])
  }

  /** Every group takes at least its two opening characters on top of its body. */
  lemma {:induction false} ExtractionShrinks(text: string)
    ensures var p := Pieces(text);
            |Outside(p)| + TotalLength(Inners(p)) + 2 * |Inners(p)| <= |text|
    decreases |text|
  {
    hide Pieces;
    if text == "" {
      NoPieces();
    } else if OpensGroup(text) {
      var group, tail := TakeGroup(text);
      ExtractionShrinks(tail);
      assert ([group.inner] + Inners(Pieces(tail)))[1..] == Inners(Pieces(tail));
    } else {
      TakePlain(text);
      ExtractionShrinks(text[1..]);
      assert Inners(Pieces(text)) == Inners(Pieces(text[1..]));
    }
  }

  // ---------------------------------------------------------------- splitting

  function Interleaved(segments: seq<string>, separators: seq<string>): string
    requires |segments| == |separators| + 1
  {
    if separators == [] then segments[0]
    else segments[0] + separators[0] + Interleaved(segments[1..], separators[1..])
  }

  predicate IsSeparator(s: string) {
    s == "&&" || s == "||" || s == ";" || s == "|" || s == "\n"
  }

  lemma SeparatorText(text: string, i: nat)
    requires i < |text| && SeparatorAt(text, i) > 0
    ensures i + SeparatorAt(text, i) <= |text| && IsSeparator(text[i..i + SeparatorAt(text, i)])
  {
    var w := SeparatorAt(text, i);
    if w == 2 {
      assert text[i..i + 2] == [text[i], text[i + 1]];
    } else {
      assert text[i..i + 1] == [text[i]];
    }
  }

  lemma {:induction false} SplittingLosesNothing(text: string)
    ensures |Segments(text)| == |Separators(text)| + 1
    ensures Interleaved(Segments(text), Separators(text)) == text
    ensures forall s :: s in Separators(text) ==> IsSeparator(s)
    decreases |text|
  {
    hide QuoteAfter, Depth, SeparatorAt, IsSeparator;
    var k := FirstCut(text, 0);
    if k < |text| {
      assert IsCut(text, k);
      SeparatorText(text, k);
      var after := k + SeparatorAt(text, k);
      var rest := text[after..];
      SplittingLosesNothing(rest);
      assert Segments(text)[1..] == Segments(rest);
      assert Separators(text)[1..] == Separators(rest);
      assert text == text[..k] + text[k..after] + rest;
    }
  }

  lemma UncutPrefix(text: string, k: nat)
    requires k <= |text| && NoneCuts(text, k)
    ensures Segments(text[..k]) == [text[..k]]
  {
    hide QuoteAfter, Depth;
    var head := text[..k];
    forall m | 0 <= m < k
      ensures !IsCut(head, m)
    {
      assert head[..m] == text[..m];
      assert !IsCut(text, m);
    }
    NeverCut(head);
  }

  /** A cut is final: splitting a segment again gives back just that segment. */
  lemma {:induction false} ResplitIsIdentity(text: string, i: nat)
    requires i < |Segments(text)|
    ensures Segments(Segments(text)[i]) == [Segments(text)[i]]
    decreases |text|
  {
    hide QuoteAfter, Depth, SeparatorAt, IsCut;
    var k := FirstCut(text, 0);
    if i == 0 {
      UncutPrefix(text, k);
      assert k == |text| ==> text[..k] == text;
    } else {
      CutMovesOn(text, k);
      ResplitIsIdentity(text[k + SeparatorAt(text, k)..], i - 1);
    }
  }

  lemma CutMovesOn(text: string, k: nat)
    requires IsCut(text, k)
    ensures 0 < SeparatorAt(text, k) && k + SeparatorAt(text, k) <= |text|
  {}

  lemma SeparatorIsBalanced(s: string)
    requires IsSeparator(s)
    ensures Balanced(s)
  {
    forall i | 0 <= i <= |s|
      ensures QuoteAfter(s[..i]) == Bare && Level(s[..i]) == 0
    {
      StartOfText(s);
      if i >= 1 { ReadOne(s, 0); }
      if i >= 2 { ReadOne(s, 1); }
    }
    assert s[..|s|] == s;
  }

  /** The splitter and the balance check agree: a command is balanced exactly when each of its segments is. */
  lemma {:induction false} BalancedIffSegmentsAre(text: string)
    ensures Balanced(text) <==> forall s :: s in Segments(text) ==> Balanced(s)
    decreases |text|
  {
    hide QuoteAfter, Depth, Level, SeparatorAt, IsSeparator, Balanced;
    var k := FirstCut(text, 0);
    if k == |text| {
      assert Segments(text) == [text];
    } else {
      SeparatorText(text, k);
      CutMovesOn(text, k);
      var after := k + SeparatorAt(text, k);
      var head, sep, rest := text[..k], text[k..after], text[after..];
      assert Segments(text) == [head] + Segments(rest);
      BalancedIffSegmentsAre(rest);
      SeparatorIsBalanced(sep);
      BalancedConcat(sep, rest);
      if Balanced(text) { CutPrefixBalanced(text, k); }
      if Balanced(head) {
        BalancedConcat(head, sep + rest);
        assert text == head + (sep + rest);
      }
    }
  }

  lemma CutPrefixBalanced(text: string, k: nat)
    requires Balanced(text) && IsCut(text, k)
    ensures Balanced(text[..k])
  {
    hide QuoteAfter, Depth, Level;
    DepthIsLevel(text, k);
    forall i | 0 <= i <= k
      ensures Level(text[..k][..i]) >= 0
    {
      assert text[..k][..i] == text[..i];
    }
  }

  function InParens(r: string): string {
    "(" + r + ")"
  }

  /** Inside one more paren the level is one higher. */
  lemma {:induction false} UnderOneParen(r: string, i: nat)
    requires Balanced(r) && i <= |r|
    ensures ("(" + r)[..i + 1] == "(" + r[..i]
    ensures QuoteAfter("(" + r[..i]) == QuoteAfter(r[..i])
    ensures Level("(" + r[..i]) == Level(r[..i]) + 1
    ensures Depth("(" + r[..i]) == Level(r[..i]) + 1
  {
    var s := "(" + r;
    assert s[..i + 1] == "(" + r[..i];
    if i == 0 {
      assert "(" + r[..0] == "(";
      assert s[..1] == "(" && s[0] == '(';
      StartOfText(s);
      ReadOne(s, 0);
    } else {
      UnderOneParen(r, i - 1);
      ReadOne(s, i);
      ReadOne(r, i - 1);
      assert s[i] == r[i - 1];
      assert Level(r[..i]) >= 0 && Level(r[..i - 1]) >= 0;
    }
  }

  /** A balanced text in parens is a single segment, and is balanced itself. */
  lemma SubshellIsOneSegment(r: string)
    requires Balanced(r)
    ensures Segments(InParens(r)) == [InParens(r)]
    ensures Balanced(InParens(r))
  {
    hide QuoteAfter, Depth, Level, SeparatorAt;
    var s, t := "(" + r, InParens(r);
    var n := |s|;
    forall i | 1 <= i <= n
      ensures t[..i] == "(" + r[..i - 1] && Depth(t[..i]) == Level(t[..i]) == Level(r[..i - 1]) + 1
      ensures QuoteAfter(t[..i]) == QuoteAfter(r[..i - 1])
    {
      assert t[..i] == s[..i];
      UnderOneParen(r, i - 1);
    }
    assert r[..|r|] == r;
    ReadOne(t, n);
    StartOfText(t);
    assert t[..n + 1] == t;
    assert Level(t) == 0 && QuoteAfter(t) == Bare;
    FirstIsParen(t);
    forall m | 0 <= m < |t|
      ensures !IsCut(t, m)
    {
      if 1 <= m { assert Depth(t[..m]) == Level(r[..m - 1]) + 1; }
    }
    NeverCut(t);
  }

  lemma FirstIsParen(t: string)
    requires |t| > 0 && t[0] == '('
    ensures SeparatorAt(t, 0) == 0
  {}
}
