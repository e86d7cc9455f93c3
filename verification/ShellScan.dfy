/** The three quote and paren scanners of the command normaliser, and how they agree with one another. */
module ShellScan {
  import opened Common

  // ------------------------------------------------------------- the automaton

  /** Where a scan stands after some text; `Escaped` is just after a backslash in double quotes. */
  datatype Quote = Bare | Single | Double | Escaped

  function NextQuote(q: Quote, c: char): Quote {
    match q
    case Bare => if c == '\'' then Single else if c == '"' then Double else Bare
    case Single => if c == '\'' then Bare else Single
    case Double => if c == '"' then Bare else if c == '\\' then Escaped else Double
    case Escaped => Double
  }

  function QuoteAfter(text: string): Quote {
    if text == "" then Bare else NextQuote(QuoteAfter(text[..|text| - 1]), text[|text| - 1])
  }

  /** What one character adds to the paren level when it is read in state `q`. */
  function Delta(q: Quote, c: char): int {
    if q != Bare then 0 else if c == '(' then 1 else if c == ')' then -1 else 0
  }

  /** Open parens less closed ones, outside quotes. */
  function Level(text: string): int {
    if text == "" then 0
    else Level(text[..|text| - 1]) + Delta(QuoteAfter(text[..|text| - 1]), text[|text| - 1])
  }

  /** The level when unmatched closing parens are forgotten as they are met. */
  function Depth(text: string): nat {
    if text == "" then 0
    else
      var d := Depth(text[..|text| - 1]) + Delta(QuoteAfter(text[..|text| - 1]), text[|text| - 1]);
      if d < 0 then 0 else d
  }

  lemma ReadOne(text: string, i: nat)
    requires i < |text|
    ensures QuoteAfter(text[..i + 1]) == NextQuote(QuoteAfter(text[..i]), text[i])
    ensures Level(text[..i + 1]) == Level(text[..i]) + Delta(QuoteAfter(text[..i]), text[i])
    ensures var d := Depth(text[..i]) + Delta(QuoteAfter(text[..i]), text[i]);
            Depth(text[..i + 1]) == if d < 0 then 0 else d
  {
    assert text[..i + 1][..i] == text[..i];
  }

  lemma StartOfText(text: string)
    ensures QuoteAfter(text[..0]) == Bare && Level(text[..0]) == 0 && Depth(text[..0]) == 0
  {}

  /** `in_quote` holds the quote character the automaton is inside; a backslash that ends the text escapes nothing. */
  predicate Tracks(inQuote: Option<char>, q: Quote, atEnd: bool) {
    match q
    case Bare => inQuote == None
    case Single => inQuote == Some('\'')
    case Double => inQuote == Some('"')
    case Escaped => atEnd && inQuote == Some('"')
  }

  // --------------------------------------------------------------- _balanced

  ghost predicate Balanced(text: string) {
    && QuoteAfter(text) == Bare
    && Level(text) == 0
    && forall i :: 0 <= i <= |text| ==> Level(text[..i]) >= 0
  }

  method IsBalanced(text: string) returns (ok: bool)
    ensures ok <==> Balanced(text)
  {
    StartOfText(text);
    hide QuoteAfter, Level, Depth;
    var depth := 0;
    var inQuote: Option<char> := None;
    var i, n := 0, |text|;
    while i < n
      invariant 0 <= i <= n
      invariant depth == Level(text[..i])
      invariant Tracks(inQuote, QuoteAfter(text[..i]), i == n)
      invariant forall k :: 0 <= k <= i ==> Level(text[..k]) >= 0
    {
      var c := text[i];
      ReadOne(text, i);
      if inQuote != None {
        if c == '\\' && inQuote == Some('"') && i + 1 < n {
          ReadOne(text, i + 1);
          i := i + 2;
          continue;
        }
        if Some(c) == inQuote {
          inQuote := None;
        }
      } else if c == '\'' || c == '"' {
        inQuote := Some(c);
      } else if c == '(' {
        depth := depth + 1;
      } else if c == ')' {
        depth := depth - 1;
        if depth < 0 {
          return false;
        }
      }
      i := i + 1;
    }
    assert text[..n] == text;
    ok := depth == 0 && inQuote == None;
  }

  // ------------------------------------------------------ _extract_dollar_paren

  /** The closing paren that ends a group whose body starts where `s` starts. */
  predicate Closes(s: string, i: nat) {
    i < |s| && s[i] == ')' && QuoteAfter(s[..i]) == Bare && Level(s[..i]) == 0
  }

  /** The first closing paren at or after `i`, or the end of the text. */
  function FirstClose(s: string, i: nat): (k: nat)
    requires i <= |s|
    ensures i <= k <= |s|
    ensures k < |s| ==> Closes(s, k)
    ensures forall m :: i <= m < k ==> !Closes(s, m)
    decreases |s| - i
  {
    if i == |s| || Closes(s, i) then i else FirstClose(s, i + 1)
  }

  ghost predicate NoneCloses(s: string, i: nat) {
    forall m :: 0 <= m < i ==> !Closes(s, m)
  }

  lemma NoneYet(s: string)
    ensures NoneCloses(s, 0)
  {}

  lemma NeverClosed(s: string)
    requires NoneCloses(s, |s|)
    ensures FirstClose(s, 0) == |s|
  {}

  /** What reading one more character of an open group body tells. */
  lemma OneMore(s: string, i: nat)
    requires i < |s| && NoneCloses(s, i)
    ensures Level(s[..i]) >= 0
    ensures if s[i] == ')' && QuoteAfter(s[..i]) == Bare && Level(s[..i]) == 0 then FirstClose(s, 0) == i
            else NoneCloses(s, i + 1)
  {
    hide QuoteAfter, Level;
    NoCloseNoDebt(s, i);
    var k := FirstClose(s, 0);
    assert k < |s| ==> Closes(s, k);
    assert Closes(s, i) ==> k <= i;
  }

  predicate OpensGroup(text: string) {
    |text| >= 2 && text[0] == '$' && text[1] == '('
  }

  datatype Piece = Plain(c: char) | Group(inner: string, closed: bool)

  function Pieces(text: string): seq<Piece>
    decreases |text|
  {
    if text == "" then []
    else if OpensGroup(text) then
      var body := text[2..];
      var k := FirstClose(body, 0);
      if k < |body| then [Group(body[..k], true)] + Pieces(body[k + 1..]) else [Group(body, false)]
    else [Plain(text[0])] + Pieces(text[1..])
  }

  function Rendered(pieces: seq<Piece>): string {
    if pieces == [] then ""
    else
      (match pieces[0]
       case Plain(c) => [c]
       case Group(inner, closed) => "$(" + inner + (if closed then ")" else "")) + Rendered(pieces[1..])
  }

  function Outside(pieces: seq<Piece>): string {
    if pieces == [] then ""
    else (if pieces[0].Plain? then [pieces[0].c] else "") + Outside(pieces[1..])
  }

  function Inners(pieces: seq<Piece>): seq<string> {
    if pieces == [] then []
    else (if pieces[0].Group? then [pieces[0].inner] else []) + Inners(pieces[1..])
  }

  /** No closing paren met so far means the level never went below zero. */
  lemma {:induction false} NoCloseNoDebt(s: string, i: nat)
    requires i <= |s|
    requires forall m :: 0 <= m < i ==> !Closes(s, m)
    ensures forall m :: 0 <= m <= i ==> Level(s[..m]) >= 0
  {
    if i == 0 {
      assert s[..0] == "";
    } else {
      NoCloseNoDebt(s, i - 1);
      ReadOne(s, i - 1);
      assert !Closes(s, i - 1);
    }
  }

  /** The scan of one group body, from just after its opening paren. */
  method ScanGroup(text: string, start: nat) returns (j: nat, closed: bool)
    requires start <= |text|
    ensures var body := text[start..];
            var k := FirstClose(body, 0);
            && closed == (k < |body|)
            && j == (if closed then start + k + 1 else |text|)
  {
    var n := |text|;
    ghost var body := text[start..];
    StartOfText(body);
    hide QuoteAfter, Level, Depth, FirstClose, NoneCloses, Closes;
    NoneYet(body);
    j := start;
    var depth := 1;
    var inQuote: Option<char> := None;
    while j < n && depth > 0
      invariant start <= j <= n
      invariant depth > 0 ==> depth == Level(body[..j - start]) + 1
      invariant depth > 0 ==> Tracks(inQuote, QuoteAfter(body[..j - start]), j == n)
      invariant depth > 0 ==> NoneCloses(body, j - start)
      invariant depth >= 0
      invariant depth == 0 ==> j > start && FirstClose(body, 0) == j - start - 1
    {
      var c := text[j];
      ghost var at := j - start;
      assert c == body[at];
      ReadOne(body, at);
      OneMore(body, at);
      if inQuote != None {
        if c == '\\' && inQuote == Some('"') && j + 1 < n {
          ReadOne(body, at + 1);
          OneMore(body, at + 1);
          j := j + 2;
          continue;
        }
        if Some(c) == inQuote {
          inQuote := None;
        }
      } else if c == '\'' || c == '"' {
        inQuote := Some(c);
      } else if c == '(' {
        depth := depth + 1;
      } else if c == ')' {
        depth := depth - 1;
      }
      j := j + 1;
    }
    closed := depth == 0;
    if !closed {
      NeverClosed(body);
    }
  }

  method ExtractDollarParen(text: string) returns (rest: string, inners: seq<string>)
    ensures rest == Outside(Pieces(text))
    ensures inners == Inners(Pieces(text))
  {
    hide QuoteAfter, Level, Depth, Pieces, Outside, Inners, FirstClose, Closes;
    rest, inners := "", [];
    var i, n := 0, |text|;
    assert text[0..] == text;
    while i < n
      invariant 0 <= i <= n
      invariant rest + Outside(Pieces(text[i..])) == Outside(Pieces(text))
      invariant inners + Inners(Pieces(text[i..])) == Inners(Pieces(text))
      decreases n - i
    {
      if text[i] == '$' && i + 1 < n && text[i + 1] == '(' {
        var start := i + 2;
        var j, closed := ScanGroup(text, start);
        var inner := if closed then text[start..j - 1] else text[start..j];
        GroupAhead(text, i, j, closed, inner);
        assert inners + ([inner] + Inners(Pieces(text[j..]))) == (inners + [inner]) + Inners(Pieces(text[j..]));
        inners := inners + [inner];
        i := j;
        continue;
      }
      PlainAhead(text, i);
      assert rest + ([text[i]] + Outside(Pieces(text[i + 1..]))) == (rest + [text[i]]) + Outside(Pieces(text[i + 1..]));
      rest := rest + [text[i]];
      i := i + 1;
    }
    NothingAhead(text);
  }

  lemma NothingAhead(text: string)
    ensures Outside(Pieces(text[|text|..])) == "" && Inners(Pieces(text[|text|..])) == []
  {}

  lemma PlainAhead(text: string, i: nat)
    requires i < |text| && !OpensGroup(text[i..])
    ensures Outside(Pieces(text[i..])) == [text[i]] + Outside(Pieces(text[i + 1..]))
    ensures Inners(Pieces(text[i..])) == Inners(Pieces(text[i + 1..]))
  {
    hide QuoteAfter, Level, FirstClose, Closes;
    assert text[i..][1..] == text[i + 1..];
    var tail := Pieces(text[i + 1..]);
    assert Pieces(text[i..]) == [Plain(text[i])] + tail;
    assert ([Plain(text[i])] + tail)[1..] == tail;
  }

  lemma GroupAhead(text: string, i: nat, j: nat, closed: bool, inner: string)
    requires i + 2 <= |text| && OpensGroup(text[i..])
    requires var body := text[i + 2..];
             var k := FirstClose(body, 0);
             && closed == (k < |body|)
             && j == (if closed then i + k + 3 else |text|)
             && inner == (if closed then text[i + 2..j - 1] else text[i + 2..j])
    ensures Inners(Pieces(text[i..])) == [inner] + Inners(Pieces(text[j..]))
    ensures Outside(Pieces(text[i..])) == Outside(Pieces(text[j..]))
  {
    hide QuoteAfter, Level, Closes;
    var here := text[i..];
    var body := text[i + 2..];
    assert here[2..] == body;
    var k := FirstClose(body, 0);
    var tail := Pieces(text[j..]);
    if closed {
      assert body[k + 1..] == text[j..];
      assert body[..k] == inner;
    } else {
      assert body == inner;
      assert text[j..] == "" && tail == [];
    }
    assert Pieces(here) == [Group(inner, closed)] + tail;
    assert ([Group(inner, closed)] + tail)[1..] == tail;
  }

  // ---------------------------------------------------------- _split_top_level

  /** The length of the separator at `i`, or 0. */
  function SeparatorAt(text: string, i: nat): nat
    requires i < |text|
  {
    if i + 1 < |text| && text[i] == text[i + 1] && (text[i] == '&' || text[i] == '|') then 2
    else if text[i] == ';' || text[i] == '|' || text[i] == '\n' then 1
    else 0
  }

  predicate IsCut(text: string, i: nat) {
    i < |text| && Depth(text[..i]) == 0 && QuoteAfter(text[..i]) == Bare && SeparatorAt(text, i) > 0
  }

  function FirstCut(text: string, i: nat): (k: nat)
    requires i <= |text|
    ensures i <= k <= |text|
    ensures k < |text| ==> IsCut(text, k)
    ensures forall m :: i <= m < k ==> !IsCut(text, m)
    decreases |text| - i
  {
    if i == |text| || IsCut(text, i) then i else FirstCut(text, i + 1)
  }

  function Segments(text: string): (segments: seq<string>)
    ensures segments != []
    decreases |text|
  {
    var k := FirstCut(text, 0);
    if k == |text| then [text] else [text[..k]] + Segments(text[k + SeparatorAt(text, k)..])
  }

  function Separators(text: string): seq<string>
    decreases |text|
  {
    var k := FirstCut(text, 0);
    if k == |text| then []
    else
      var after := k + SeparatorAt(text, k);
      [text[k..after]] + Separators(text[after..])
  }

  ghost predicate NoneCuts(text: string, i: nat) {
    forall m :: 0 <= m < i ==> !IsCut(text, m)
  }

  lemma NoCutYet(text: string)
    ensures NoneCuts(text, 0)
  {}

  /** The scan has reached `at` with no cut before it, and there is none there either. */
  lemma NoCutHere(text: string, at: nat)
    requires at < |text| && NoneCuts(text, at)
    requires Depth(text[..at]) > 0 || QuoteAfter(text[..at]) != Bare || SeparatorAt(text, at) == 0 || Shapes(text[at])
    ensures NoneCuts(text, at + 1)
  {}

  predicate Shapes(c: char) {
    c == '\'' || c == '"' || c == '(' || c == ')'
  }

  lemma SeparatorWidth(text: string, i: nat, rest: string, at: nat, two: string)
    requires i < |text| && at <= i && rest == text[i - at..]
    requires two == text[i..if i + 2 <= |text| then i + 2 else |text|]
    ensures SeparatorAt(rest, at) ==
            if two == "&&" || two == "||" then 2 else if text[i] == ';' || text[i] == '|' || text[i] == '\n' then 1
                else 0
    ensures i + SeparatorAt(rest, at) <= |text|
    ensures rest[at + SeparatorAt(rest, at)..] == text[i + SeparatorAt(rest, at)..]
  {}

  lemma CutHere(text: string, at: nat)
    requires at < |text| && NoneCuts(text, at)
    requires Depth(text[..at]) == 0 && QuoteAfter(text[..at]) == Bare && SeparatorAt(text, at) > 0
    ensures Segments(text) == [text[..at]] + Segments(text[at + SeparatorAt(text, at)..])
  {
    hide Depth, QuoteAfter, SeparatorAt;
    var k := FirstCut(text, 0);
    assert IsCut(text, at);
    assert k < |text| ==> IsCut(text, k);
  }

  lemma NeverCut(text: string)
    requires NoneCuts(text, |text|)
    ensures Segments(text) == [text]
  {
    hide Depth, QuoteAfter, SeparatorAt;
    var k := FirstCut(text, 0);
    assert k < |text| ==> IsCut(text, k);
  }

  method SplitTopLevel(text: string) returns (segments: seq<string>)
    ensures segments == Segments(text)
  {
    hide Depth, QuoteAfter, Level, NoneCuts, IsCut, FirstCut, Segments, SeparatorAt;
    segments := [];
    var buf := "";
    var i, n := 0, |text|;
    var depth: nat := 0;
    var inQuote: Option<char> := None;
    ghost var start := 0;
    ghost var rest := text[0..];
    assert rest == text;
    StartOfText(rest);
    NoCutYet(rest);
    while i < n
      invariant 0 <= start <= i <= n
      invariant rest == text[start..]
      invariant segments + Segments(rest) == Segments(text)
      invariant buf == rest[..i - start]
      invariant depth == Depth(rest[..i - start])
      invariant Tracks(inQuote, QuoteAfter(rest[..i - start]), i == n)
      invariant NoneCuts(rest, i - start)
    {
      var c := text[i];
      ghost var at := i - start;
      assert c == rest[at];
      ReadOne(rest, at);
      if inQuote != None {
        NoCutHere(rest, at);
        buf := buf + [c];
        if c == '\\' && inQuote == Some('"') && i + 1 < n {
          ReadOne(rest, at + 1);
          NoCutHere(rest, at + 1);
          buf := buf + [text[i + 1]];
          i := i + 2;
          continue;
        }
        if Some(c) == inQuote {
          inQuote := None;
        }
        i := i + 1;
        continue;
      }
      if c == '\'' || c == '"' {
        NoCutHere(rest, at);
        inQuote := Some(c);
        buf := buf + [c];
        i := i + 1;
        continue;
      }
      if c == '(' {
        NoCutHere(rest, at);
        depth := depth + 1;
        buf := buf + [c];
        i := i + 1;
        continue;
      }
      if c == ')' {
        NoCutHere(rest, at);
        depth := if depth - 1 < 0 then 0 else depth - 1;
        buf := buf + [c];
        i := i + 1;
        continue;
      }
      if depth == 0 {
        var two := text[i..if i + 2 <= n then i + 2 else n];
        var width := if two == "&&" || two == "||" then 2 else if c == ';' || c == '|' || c == '\n' then 1 else 0;
        SeparatorWidth(text, i, rest, at, two);
        if width > 0 {
          CutHere(rest, at);
          assert segments + ([buf] + Segments(text[i + width..])) == (segments + [buf]) + Segments(text[i + width..]);
          segments := segments + [buf];
          buf := "";
          i := i + width;
          start := i;
          rest := text[start..];
          StartOfText(rest);
          NoCutYet(rest);
          continue;
        }
      }
      NoCutHere(rest, at);
      buf := buf + [c];
      i := i + 1;
    }
    assert rest[..n - start] == rest;
    NeverCut(rest);
    segments := segments + [buf];
  }
}
