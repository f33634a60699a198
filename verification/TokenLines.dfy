/** Whole lines without escapes: the tokens and break strings that separators, break characters and quotes
    make of them. */
module TokenLines {
  import opened Words
  import opened Tokenizer
  import opened TokenText

  /** A stretch of a token: characters as they are, characters between quotes, or the last ones of a line
      behind a quote that is never closed. */
  datatype Part = Bare(text: seq<u8>) | Between(mark: u8, text: seq<u8>) | Open(mark: u8, text: seq<u8>) {
    function Written(): seq<u8> {
      match this
      case Bare(t) => t
      case Between(m, t) => [m] + t + [m]
      case Open(m, t) => [m] + t
    }

    predicate Fits(cfg: Config) {
      match this
      case Bare(t) => t != [] && forall c :: c in t ==> !cfg.Special(c) && c != cfg.escape
      case Between(m, t) => Opens(cfg, m) && m !in t && Idle(cfg, t)
      case Open(m, t) => Opens(cfg, m) && m !in t && Idle(cfg, t)
    }
  }

  /** The parts of a token and the character behind it. */
  datatype Piece = Piece(parts: seq<Part>, end: u8)

  predicate Opens(cfg: Config, m: u8) { m in cfg.quote && m !in cfg.brk }

  /** No character acts as an escape. */
  predicate Idle(cfg: Config, s: seq<u8>) { Escapes(cfg) ==> cfg.escape !in s }

  predicate Fit(cfg: Config, parts: seq<Part>) {
    forall k :: 0 <= k < |parts| ==> parts[k].Fits(cfg) && !parts[k].Open?
  }

  /** The parts at the end of a line may leave a quote open. */
  predicate FitLast(cfg: Config, parts: seq<Part>) {
    forall k :: 0 <= k < |parts| ==> parts[k].Fits(cfg) && (parts[k].Open? ==> k == |parts| - 1)
  }

  predicate FitLine(cfg: Config, ps: seq<Piece>, last: seq<Part>) {
    && FitLast(cfg, last)
    && forall k :: 0 <= k < |ps| ==>
         Fit(cfg, ps[k].parts) && ps[k].end != 0 && (ps[k].end in cfg.brk || Blank(cfg, ps[k].end))
  }

  function Written(parts: seq<Part>): seq<u8> {
    if parts == [] then [] else parts[0].Written() + Written(parts[1..])
  }

  function Text(parts: seq<Part>): seq<u8> {
    if parts == [] then [] else parts[0].text + Text(parts[1..])
  }

  function Line(ps: seq<Piece>, last: seq<Part>): seq<u8> {
    if ps == [] then Written(last) else Written(ps[0].parts) + [ps[0].end] + Line(ps[1..], last)
  }

  /** A string of its own, unless it is empty. */
  function Alone(s: seq<u8>): seq<seq<u8>> { if s == [] then [] else [s] }

  /** The text of each token, and every break character by itself. */
  function Strings(cfg: Config, ps: seq<Piece>, last: seq<Part>): seq<seq<u8>> {
    if ps == [] then Alone(Text(last))
    else Alone(Text(ps[0].parts)) + (if ps[0].end in cfg.brk then [[ps[0].end]] else []) + Strings(cfg, ps[1..], last)
  }

  // ---- one part ----

  lemma BareMove(cfg: Config, line: seq<u8>, i: nat, mode: Mode)
    requires i < |line| && !cfg.Special(line[i]) && line[i] != cfg.escape && !mode.Quote?
    ensures NextMove(cfg, line, i, mode) == Go(i + 1, [line[i]], Token)
  {}

  lemma MarkMove(cfg: Config, line: seq<u8>, i: nat, mode: Mode)
    requires i < |line| && Opens(cfg, line[i])
    ensures !mode.Quote? ==> NextMove(cfg, line, i, mode) == Go(i + 1, [], Quote(line[i]))
    ensures NextMove(cfg, line, i, Quote(line[i])) == Go(i + 1, [], Token)
  {}

  /** Characters that are not special, outside quotes, are characters of the token. */
  lemma {:induction false} BareScan(cfg: Config, line: seq<u8>, i: nat, s: seq<u8>, mode: Mode, tok: seq<u8>)
    requires i + |s| <= |line| && line[i..i + |s|] == s && s != [] && !mode.Quote?
    requires forall c :: c in s ==> !cfg.Special(c) && c != cfg.escape
    ensures Parse(cfg, line, i, mode, tok) == Parse(cfg, line, i + |s|, Token, tok + s)
    decreases |s|
  {
    hide Parse, NextMove;
    SubSeq(line, i, s);
    assert s[0] in s;
    BareMove(cfg, line, i, mode);
    ParseGo(cfg, line, i, mode, tok);
    if |s| > 1 {
      assert line[i + 1..i + |s|] == s[1..] && forall c :: c in s[1..] ==> c in s;
      BareScan(cfg, line, i + 1, s[1..], Token, tok + [line[i]]);
      assert tok + [s[0]] + s[1..] == tok + s;
    } else {
      assert s == [s[0]];
    }
  }

  /** Between quotes all characters are characters of the token, but for the quote itself. */
  lemma {:induction false} QuoteScan(cfg: Config, line: seq<u8>, i: nat, mark: u8, s: seq<u8>, tok: seq<u8>)
    requires i + |s| <= |line| && line[i..i + |s|] == s && mark !in s && Idle(cfg, s)
    ensures Parse(cfg, line, i, Quote(mark), tok) == Parse(cfg, line, i + |s|, Quote(mark), tok + s)
    decreases |s|
  {
    hide Parse, NextMove;
    if s == [] {
      assert tok + s == tok;
    } else {
      SubSeq(line, i, s);
      assert s[0] in s;
      QuoteMove(cfg, line, i, mark);
      ParseGo(cfg, line, i, Quote(mark), tok);
      assert line[i + 1..i + |s|] == s[1..];
      QuoteScan(cfg, line, i + 1, mark, s[1..], tok + [s[0]]);
      assert tok + [s[0]] + s[1..] == tok + s;
    }
  }

  lemma QuotedAt(line: seq<u8>, i: nat, m: u8, t: seq<u8>, z: seq<u8>)
    requires i + 1 + |t| + |z| <= |line| && line[i..i + 1 + |t| + |z|] == [m] + t + z
    ensures line[i] == m && line[i + 1..i + 1 + |t|] == t && (z == [m] ==> line[i + 1 + |t|] == m)
  {
    SubSeq(line, i, [m] + t + z);
    assert t == ([m] + t + z)[1..1 + |t|];
  }

  lemma OpenScan(cfg: Config, line: seq<u8>, i: nat, m: u8, t: seq<u8>, mode: Mode, tok: seq<u8>)
    requires i + 1 + |t| <= |line| && line[i] == m && line[i + 1..i + 1 + |t|] == t && !mode.Quote?
    requires Opens(cfg, m) && m !in t && Idle(cfg, t)
    ensures Parse(cfg, line, i, mode, tok) == Parse(cfg, line, i + 1 + |t|, Quote(m), tok + t)
  {
    hide Parse, NextMove;
    MarkMove(cfg, line, i, mode);
    ParseGo(cfg, line, i, mode, tok);
    assert tok + [] == tok;
    QuoteScan(cfg, line, i + 1, m, t, tok);
  }

  lemma PartScan(cfg: Config, line: seq<u8>, i: nat, p: Part, mode: Mode, tok: seq<u8>)
    requires var j := i + |p.Written()|; j <= |line| && line[i..j] == p.Written() && (p.Open? ==> j == |line|)
    requires p.Fits(cfg) && !mode.Quote?
    ensures var j := i + |p.Written()|;
      Parse(cfg, line, i, mode, tok) == Parse(cfg, line, j, if p.Open? then Quote(p.mark) else Token, tok + p.text)
  {
    hide Parse, NextMove;
    match p
    case Bare(t) => BareScan(cfg, line, i, t, mode, tok);
    case Between(m, t) =>
      QuotedAt(line, i, m, t, [m]);
      OpenScan(cfg, line, i, m, t, mode, tok);
      MarkMove(cfg, line, i + 1 + |t|, Quote(m));
      ParseGo(cfg, line, i + 1 + |t|, Quote(m), tok + t);
      assert tok + t + [] == tok + t;
    case Open(m, t) =>
      QuotedAt(line, i, m, t, []);
      assert [m] + t + [] == [m] + t;
      OpenScan(cfg, line, i, m, t, mode, tok);
  }

  // ---- one token ----

  lemma Split(line: seq<u8>, i: nat, s: seq<u8>, t: seq<u8>)
    requires i <= |line| && s + t <= line[i..]
    ensures i + |s| + |t| <= |line| && line[i..i + |s|] == s && t <= line[i + |s|..]
  {
    var r := line[i..];
    assert r[..|s|] == (s + t)[..|s|] == s && r[|s|..|s| + |t|] == (s + t)[|s|..] == t;
    assert line[i..i + |s|] == r[..|s|] && line[i + |s|..][..|t|] == r[|s|..|s| + |t|];
  }

  lemma Regroup(a: seq<u8>, b: seq<u8>, c: seq<u8>)
    ensures a + (b + c) == a + b + c
  {}

  /** The first of the parts. */
  lemma FirstPart(cfg: Config, line: seq<u8>, i: nat, parts: seq<Part>, mode: Mode, tok: seq<u8>)
    requires i <= |line| && Written(parts) <= line[i..] && FitLast(cfg, parts) && !mode.Quote?
    requires (Fit(cfg, parts) || i + |Written(parts)| == |line|) && parts != []
    ensures var p, rest := parts[0], parts[1..]; var j := i + |p.Written()|;
      && j <= |line| && Written(rest) <= line[j..] && |Written(parts)| == |p.Written()| + |Written(rest)|
      && Text(parts) == p.text + Text(rest) && FitLast(cfg, rest) && (Fit(cfg, parts) ==> Fit(cfg, rest) && !p.Open?)
      && (p.Open? ==> rest == [] && Written(rest) == [] && Text(rest) == [])
      && Parse(cfg, line, i, mode, tok) == Parse(cfg, line, j, if p.Open? then Quote(p.mark) else Token, tok + p.text)
  {
    hide Parse, Part.Fits, Part.Written;
    var p, rest := parts[0], parts[1..];
    Split(line, i, p.Written(), Written(rest));
    assert p.Open? ==> rest == [];
    PartScan(cfg, line, i, p, mode, tok);
  }

  /** A scan goes through the parts of a token and collects their text. */
  lemma {:induction false} PartsScan(cfg: Config, line: seq<u8>, i: nat, parts: seq<Part>, mode: Mode, tok: seq<u8>)
    returns (after: Mode)
    requires i <= |line| && Written(parts) <= line[i..] && FitLast(cfg, parts) && !mode.Quote?
    requires Fit(cfg, parts) || i + |Written(parts)| == |line|
    ensures i + |Written(parts)| <= |line|
    ensures Parse(cfg, line, i, mode, tok) == Parse(cfg, line, i + |Written(parts)|, after, tok + Text(parts))
    ensures Fit(cfg, parts) ==> after == if parts == [] then mode else Token
    decreases |parts|
  {
    hide Parse, Part.Fits, Part.Written, Fit, FitLast;
    after := mode;
    if parts == [] {
      assert tok + [] == tok;
    } else {
      var p, rest := parts[0], parts[1..];
      FirstPart(cfg, line, i, parts, mode, tok);
      if p.Open? {
        after := Quote(p.mark);
        assert p.text + [] == p.text;
      } else {
        after := PartsScan(cfg, line, i + |p.Written()|, rest, Token, tok + p.text);
        assert tok + p.text + Text(rest) == tok + (p.text + Text(rest));
      }
    }
  }

  lemma OneString(cfg: Config, line: seq<u8>, i: nat, s: seq<u8>, j: nat, c: u8)
    requires i < |line| && Parse(cfg, line, i, White, []) == Outcome(s, j, c)
    ensures j <= |line|
    ensures Tokens(cfg, line, i) == Alone(s) + (if c != 0 then [[c]] else []) + Tokens(cfg, line, j)
  {
    hide Parse;
  }

  lemma EndMove(cfg: Config, line: seq<u8>, i: nat, mode: Mode)
    requires i < |line| && !mode.Quote?
    ensures line[i] in cfg.brk ==> NextMove(cfg, line, i, mode) == Stop(i + 1, [], line[i])
    ensures Blank(cfg, line[i]) && mode.Token? ==> NextMove(cfg, line, i, mode) == Stop(i, [], 0)
  {}

  /** A token, and the break character behind it, if it is one. */
  lemma PieceTokens(cfg: Config, line: seq<u8>, i: nat, p: Piece)
    requires i <= |line| && Written(p.parts) + [p.end] <= line[i..] && Fit(cfg, p.parts) && p.end != 0
    requires p.end in cfg.brk || Blank(cfg, p.end)
    ensures var j := i + |Written(p.parts)| + 1;
      j <= |line| && Tokens(cfg, line, i) ==
        Alone(Text(p.parts)) + (if p.end in cfg.brk then [[p.end]] else []) + Tokens(cfg, line, j)
  {
    hide Parse, Tokens, Blank, Part.Fits;
    var s, j := Text(p.parts), i + |Written(p.parts)|;
    Split(line, i, Written(p.parts), [p.end]);
    assert line[j] == line[j..][0] == p.end;
    var after := PartsScan(cfg, line, i, p.parts, White, []);
    assert [] + s == s && s + [] == s;
    EndMove(cfg, line, j, after);
    if p.end in cfg.brk {
      ParseStop(cfg, line, j, after, s);
      OneString(cfg, line, i, s, j + 1, p.end);
    } else if p.parts == [] {
      LeadingBlank(cfg, line, i);
    } else {
      ParseStop(cfg, line, j, after, s);
      OneString(cfg, line, i, s, j, 0);
      LeadingBlank(cfg, line, j);
    }
    assert p.end in cfg.brk ==> !Blank(cfg, p.end) by { BlankIs(cfg, p.end); }
  }

  lemma BlankIs(cfg: Config, c: u8)
    ensures Blank(cfg, c) ==> c !in cfg.brk
  {}

  lemma LastTokens(cfg: Config, line: seq<u8>, i: nat, last: seq<Part>)
    requires i <= |line| && line[i..] == Written(last) && FitLast(cfg, last)
    ensures Tokens(cfg, line, i) == Alone(Text(last))
  {
    hide Parse, Tokens, Part.Fits;
    var s := Text(last);
    TokensEnd(cfg, line);
    if i == |line| {
      NoText(cfg, last);
    } else {
      assert Written(last) <= line[i..];
      var after := PartsScan(cfg, line, i, last, White, []);
      assert [] + s == s;
      ParseEnd(cfg, line, after, s);
      OneString(cfg, line, i, s, |line|, 0);
    }
  }

  lemma NoText(cfg: Config, parts: seq<Part>)
    requires FitLast(cfg, parts)
    ensures Written(parts) == [] ==> parts == []
  {
    if parts != [] { assert |Written(parts)| >= |parts[0].Written()| > 0; }
  }

  lemma AfterHead(line: seq<u8>, i: nat, head: seq<u8>, rest: seq<u8>)
    requires i <= |line| && line[i..] == head + rest
    ensures i + |head| <= |line| && head <= line[i..] && line[i + |head|..] == rest
  {
    assert line[i..][..|head|] == head && line[i..][|head|..] == rest;
    assert line[i + |head|..] == line[i..][|head|..];
  }

  /** What a line without escapes is taken apart into: the text of its tokens in order, with every break
      character outside quotes as a string of its own in its place. */
  lemma {:induction false} LineTokens(cfg: Config, line: seq<u8>, i: nat, ps: seq<Piece>, last: seq<Part>)
    requires FitLine(cfg, ps, last) && i <= |line| && line[i..] == Line(ps, last)
    ensures Tokens(cfg, line, i) == Strings(cfg, ps, last)
    decreases |ps|
  {
    hide Tokens, Fit, FitLast, Blank, Written, Text;
    if ps == [] {
      LastTokens(cfg, line, i, last);
    } else {
      var p := ps[0];
      var head := Written(p.parts) + [p.end];
      AfterHead(line, i, head, Line(ps[1..], last));
      PieceTokens(cfg, line, i, p);
      LineTokens(cfg, line, i + |head|, ps[1..], last);
    }
  }

  /** Characters that are not special, and the character that ends the token, which is a string of its own
      if it is a break character. */
  lemma NextString(cfg: Config, line: seq<u8>, i: nat, s: seq<u8>, c: u8)
    requires forall b :: b in s ==> b !in cfg.white && b !in cfg.brk && b !in cfg.quote && b != cfg.escape
    requires c != 0 && (c in cfg.brk || (c in cfg.white && c !in cfg.quote))
    requires i <= |line| && s + [c] <= line[i..]
    ensures i + |s| < |line|
    ensures Tokens(cfg, line, i) ==
      (if s == [] then [] else [s]) + (if c in cfg.brk then [[c]] else []) + Tokens(cfg, line, i + |s| + 1)
  {
    hide Tokens;
    BareParts(cfg, s);
    PieceTokens(cfg, line, i, Piece(BarePart(s), c));
  }

  /** The same with text between quotes in the middle of the token. */
  lemma NextQuoted(cfg: Config, line: seq<u8>, i: nat, s: seq<u8>, m: u8, t: seq<u8>, u: seq<u8>, c: u8)
    requires forall b :: b in s || b in u ==> b !in cfg.white && b !in cfg.brk && b !in cfg.quote && b != cfg.escape
    requires m in cfg.quote && m !in cfg.brk && m !in t
    requires cfg.escape in t ==>
      cfg.escape == 0 || cfg.escape in cfg.white || cfg.escape in cfg.brk || cfg.escape in cfg.quote
    requires c != 0 && (c in cfg.brk || (c in cfg.white && c !in cfg.quote))
    requires i <= |line| && s + [m] + t + [m] + u + [c] <= line[i..]
    ensures i + |s + t + u| + 2 < |line|
    ensures Tokens(cfg, line, i) ==
      (if s + t + u == [] then [] else [s + t + u]) + (if c in cfg.brk then [[c]] else [])
        + Tokens(cfg, line, i + |s + t + u| + 3)
  {
    hide Tokens, Written, Text, BarePart, Fit;
    var parts := ThreeParts(cfg, s, m, t, u);
    PieceTokens(cfg, line, i, Piece(parts, c));
  }

  lemma ThreeParts(cfg: Config, s: seq<u8>, m: u8, t: seq<u8>, u: seq<u8>) returns (parts: seq<Part>)
    requires forall b :: b in s || b in u ==> b !in cfg.white && b !in cfg.brk && b !in cfg.quote && b != cfg.escape
    requires m in cfg.quote && m !in cfg.brk && m !in t
    requires cfg.escape in t ==>
      cfg.escape == 0 || cfg.escape in cfg.white || cfg.escape in cfg.brk || cfg.escape in cfg.quote
    ensures Fit(cfg, parts) && Written(parts) == s + [m] + t + [m] + u && Text(parts) == s + t + u
  {
    hide Written, Text, BarePart, Fit, Idle;
    MayQuote(cfg, m, t);
    var x, y, z := BarePart(s), [Between(m, t)], BarePart(u);
    BareParts(cfg, s);
    BareParts(cfg, u);
    QuotedPart(cfg, m, t);
    Joined(x, y);
    Joined(x + y, z);
    FitJoined(cfg, x, y, z);
    assert s + ([m] + t + [m]) == s + [m] + t + [m];
    parts := x + y + z;
  }

  lemma MayQuote(cfg: Config, m: u8, t: seq<u8>)
    requires m in cfg.quote && m !in cfg.brk
    requires cfg.escape in t ==>
      cfg.escape == 0 || cfg.escape in cfg.white || cfg.escape in cfg.brk || cfg.escape in cfg.quote
    ensures Opens(cfg, m) && Idle(cfg, t)
  {}

  lemma FitJoined(cfg: Config, x: seq<Part>, y: seq<Part>, z: seq<Part>)
    requires Fit(cfg, x) && Fit(cfg, y) && Fit(cfg, z)
    ensures Fit(cfg, x + y + z)
  {
    hide Part.Fits;
  }

  function BarePart(s: seq<u8>): seq<Part> { if s == [] then [] else [Bare(s)] }

  lemma BareParts(cfg: Config, s: seq<u8>)
    requires forall b :: b in s ==> b !in cfg.white && b !in cfg.brk && b !in cfg.quote && b != cfg.escape
    ensures Fit(cfg, BarePart(s)) && Written(BarePart(s)) == Text(BarePart(s)) == s
  {
    assert s != [] ==> [Bare(s)][1..] == [];
  }

  lemma QuotedPart(cfg: Config, m: u8, t: seq<u8>)
    requires Opens(cfg, m) && m !in t && Idle(cfg, t)
    ensures var y := [Between(m, t)]; Fit(cfg, y) && Written(y) == [m] + t + [m] && Text(y) == t
  {
    assert [Between(m, t)][1..] == [];
  }

  lemma Joined(a: seq<Part>, b: seq<Part>)
    ensures Written(a + b) == Written(a) + Written(b) && Text(a + b) == Text(a) + Text(b)
  {
    WrittenJoined(a, b);
    TextJoined(a, b);
  }

  lemma {:induction false} WrittenJoined(a: seq<Part>, b: seq<Part>)
    ensures Written(a + b) == Written(a) + Written(b)
  {
    hide Part.Written;
    if a == [] {
      assert a + b == b;
    } else {
      WrittenJoined(a[1..], b);
      assert (a + b)[1..] == a[1..] + b;
      Regroup(a[0].Written(), Written(a[1..]), Written(b));
    }
  }

  lemma {:induction false} TextJoined(a: seq<Part>, b: seq<Part>)
    ensures Text(a + b) == Text(a) + Text(b)
  {
    if a == [] {
      assert a + b == b;
    } else {
      TextJoined(a[1..], b);
      assert (a + b)[1..] == a[1..] + b;
      Regroup(a[0].text, Text(a[1..]), Text(b));
    }
  }

  /** An escape in a token: it gives way to a special character, and is kept in front of any other. */
  lemma NextEscaped(cfg: Config, line: seq<u8>, i: nat, s: seq<u8>, c: u8, u: seq<u8>, end: u8)
    requires forall b :: b in s || b in u ==> b !in cfg.white && b !in cfg.brk && b !in cfg.quote && b != cfg.escape
    requires cfg.escape != 0 && cfg.escape !in cfg.white && cfg.escape !in cfg.brk && cfg.escape !in cfg.quote
    requires c != cfg.escape || s != []
    requires end != 0 && (end in cfg.brk || (end in cfg.white && end !in cfg.quote))
    requires i <= |line| && s + [cfg.escape, c] + u + [end] <= line[i..]
    ensures i + |s + u| + 2 < |line|
    ensures Tokens(cfg, line, i) ==
      [s + (if c in cfg.white || c in cfg.brk || c in cfg.quote then [c] else [cfg.escape, c]) + u]
        + (if end in cfg.brk then [[end]] else []) + Tokens(cfg, line, i + |s + u| + 3)
  {
    hide Tokens;
    EscapedAt(line, i, s, [cfg.escape, c], u, end);
    EscapedString(cfg, line, i, s, c, u, end);
  }

  /** Where the parts are. */
  lemma EscapedAt(line: seq<u8>, i: nat, s: seq<u8>, t: seq<u8>, u: seq<u8>, end: u8)
    requires i <= |line| && s + t + u + [end] <= line[i..]
    ensures var j := i + |s|; var k := j + |t|; var m := k + |u|;
      && m < |line| && line[i..j] == s && line[j..k] == t && line[k..m] == u && line[m] == end
  {
    var j := i + |s|;
    assert s + t + u + [end] == s + (t + (u + [end]));
    Split(line, i, s, t + (u + [end]));
    Split(line, j, t, u + [end]);
    Split(line, j + |t|, u, [end]);
    assert line[j + |t| + |u|] == line[j + |t| + |u|..][0];
  }

  lemma EscapedString(cfg: Config, line: seq<u8>, i: nat, s: seq<u8>, c: u8, u: seq<u8>, end: u8)
    requires forall b :: b in s || b in u ==> b !in cfg.white && b !in cfg.brk && b !in cfg.quote && b != cfg.escape
    requires Escapes(cfg) && (c != cfg.escape || s != []) && end != 0 && (end in cfg.brk || Tokenizer.Blank(cfg, end))
    requires var j := i + |s|; var m := j + 2 + |u|;
      && m < |line| && line[i..j] == s && line[j..j + 2] == [cfg.escape, c] && line[j + 2..m] == u && line[m] == end
    ensures Tokens(cfg, line, i) ==
      [s + (if c in cfg.white || c in cfg.brk || c in cfg.quote then [c] else [cfg.escape, c]) + u]
        + (if end in cfg.brk then [[end]] else []) + Tokens(cfg, line, i + |s + u| + 3)
  {
    hide Parse, Tokens, NextMove, Tokenizer.Blank;
    var j, mid := i + |s|, if cfg.Special(c) then [c] else [cfg.escape, c];
    SubSeq(line, j, [cfg.escape, c]);
    BareOrNone(cfg, line, i, s, White, []);
    EscapeScan(cfg, line, j, if s == [] then White else Token, [] + s, mid);
    BareOrNone(cfg, line, j + 2, u, Token, [] + s + mid);
    EndMove(cfg, line, j + 2 + |u|, Token);
    var tok := [] + s + mid + u;
    ParseStop(cfg, line, j + 2 + |u|, Token, tok);
    assert tok + [] == tok == s + mid + u;
    EndString(cfg, line, i, tok, j + 2 + |u|, end);
  }

  lemma BareOrNone(cfg: Config, line: seq<u8>, i: nat, s: seq<u8>, mode: Mode, tok: seq<u8>)
    requires i + |s| <= |line| && line[i..i + |s|] == s && !mode.Quote?
    requires forall b :: b in s ==> b !in cfg.white && b !in cfg.brk && b !in cfg.quote && b != cfg.escape
    ensures Parse(cfg, line, i, mode, tok) == Parse(cfg, line, i + |s|, if s == [] then mode else Token, tok + s)
  {
    hide Parse;
    if s == [] {
      assert tok + s == tok;
    } else {
      BareScan(cfg, line, i, s, mode, tok);
    }
  }

  lemma EscapeScan(cfg: Config, line: seq<u8>, j: nat, mode: Mode, tok: seq<u8>, mid: seq<u8>)
    requires j + 1 < |line| && line[j] == cfg.escape && Escapes(cfg) && !mode.Quote?
    requires line[j + 1] == cfg.escape ==> mode.Token?
    requires mid == if cfg.Special(line[j + 1]) then [line[j + 1]] else [cfg.escape, line[j + 1]]
    ensures Parse(cfg, line, j, mode, tok) == Parse(cfg, line, j + 2, Token, tok + mid)
  {
    hide Parse;
    assert tok + [] == tok && tok + [cfg.escape] + [line[j + 1]] == tok + [cfg.escape, line[j + 1]];
    ParseGo(cfg, line, j, mode, tok);
    ParseGo(cfg, line, j, Token, tok);
    ParseGo(cfg, line, j + 1, Token, tok + [cfg.escape]);
  }

  lemma EndString(cfg: Config, line: seq<u8>, i: nat, s: seq<u8>, j: nat, c: u8)
    requires i < j < |line| && s != [] && line[j] == c != 0 && (c in cfg.brk || Tokenizer.Blank(cfg, c))
    requires Parse(cfg, line, i, White, []) == if c in cfg.brk then Outcome(s, j + 1, c) else Outcome(s, j, 0)
    ensures Tokens(cfg, line, i) == [s] + (if c in cfg.brk then [[c]] else []) + Tokens(cfg, line, j + 1)
  {
    hide Parse, Tokens;
    if c in cfg.brk {
      OneString(cfg, line, i, s, j + 1, c);
    } else {
      OneString(cfg, line, i, s, j, 0);
      LeadingBlank(cfg, line, j);
    }
  }

  /** With the usual sets the line `a;"b c"d f` falls into `a`, `;`, `b cd` and `f`. */
  lemma UsualSets(escape: u8)
    requires escape == 92 || escape == 0
    ensures Tokens(Config([32, 9], [59, 124], [34, 39], escape), [97, 59, 34, 98, 32, 99, 34, 100, 32, 102], 0)
      == [[97], [59], [98, 32, 99, 100], [102]]
  {
    hide *;
    var cfg := Config([32, 9], [59, 124], [34, 39], escape);
    var line: seq<u8> := [97, 59, 34, 98, 32, 99, 34, 100, 32, 102];
    NextString(cfg, line, 0, [97], 59);
    UsualQuoted(cfg, line);
  }

  lemma UsualQuoted(cfg: Config, line: seq<u8>)
    requires cfg.white == [32, 9] && cfg.brk == [59, 124] && cfg.quote == [34, 39] && cfg.escape in [0, 92]
    requires |line| == 10 && line[2..] == [34, 98, 32, 99, 34, 100, 32, 102]
    ensures Tokens(cfg, line, 2) == [[98, 32, 99, 100], [102]]
  {
    hide Tokens, Written, Text, Tokenizer.Blank;
    assert [34, 98, 32, 99, 34, 100, 32] <= line[2..];
    NextQuoted(cfg, line, 2, [], 34, [98, 32, 99], [100], 32);
    assert [] + [98, 32, 99] + [100] == [98, 32, 99, 100];
    assert line[9..] == line[2..][7..] == [102];
    BareParts(cfg, [102]);
    LastTokens(cfg, line, 9, BarePart([102]));
  }

  // ---- every line without escapes is such a line ----

  /** The pieces with one part more in front. */
  function Ahead(p: Part, ps: seq<Piece>, last: seq<Part>): (r: (seq<Piece>, seq<Part>)) {
    if ps == [] then ([], [p] + last) else ([Piece([p] + ps[0].parts, ps[0].end)] + ps[1..], last)
  }

  lemma AheadFits(cfg: Config, p: Part, ps: seq<Piece>, last: seq<Part>)
    requires FitLine(cfg, ps, last) && p.Fits(cfg) && !p.Open?
    ensures var (qs, end) := Ahead(p, ps, last); FitLine(cfg, qs, end)
  {
    hide Part.Fits, Opens, Idle;
  }

  lemma {:induction false} AheadLine(p: Part, ps: seq<Piece>, last: seq<Part>)
    ensures var (qs, end) := Ahead(p, ps, last); Line(qs, end) == p.Written() + Line(ps, last)
  {
    hide Part.Written;
    var w := p.Written();
    if ps == [] {
      assert ([p] + last)[1..] == last;
    } else {
      var q, rest := ps[0], ps[1..];
      var qs := [Piece([p] + q.parts, q.end)] + rest;
      assert qs[1..] == rest && ([p] + q.parts)[1..] == q.parts;
      assert w + Written(q.parts) + [q.end] + Line(rest, last) == w + (Written(q.parts) + [q.end] + Line(rest, last));
    }
  }

  /** Every line without escapes can be written in this way. */
  lemma {:induction false} EveryLine(cfg: Config, line: seq<u8>) returns (ps: seq<Piece>, last: seq<Part>)
    requires 0 !in line && Idle(cfg, line)
    ensures FitLine(cfg, ps, last) && Line(ps, last) == line
    decreases |line|
  {
    hide Part.Fits, FitLine, Line;
    if line == [] {
      ps, last := [], [];
      NoLine(cfg);
      return;
    }
    var c, rest := line[0], line[1..];
    assert line == [c] + rest && c in line;
    if c in cfg.brk || Blank(cfg, c) {
      ps, last := EveryLine(cfg, rest);
      EndAhead(cfg, c, ps, last);
      ps := [Piece([], c)] + ps;
    } else if c in cfg.quote {
      ps, last := QuoteAhead(cfg, c, rest);
    } else {
      ps, last := EveryLine(cfg, rest);
      BareFits(cfg, c);
      AheadFits(cfg, Bare([c]), ps, last);
      AheadLine(Bare([c]), ps, last);
      var (qs, end) := Ahead(Bare([c]), ps, last);
      ps, last := qs, end;
    }
  }

  lemma NoLine(cfg: Config)
    ensures FitLine(cfg, [], []) && Line([], []) == []
  {}

  lemma BareFits(cfg: Config, c: u8)
    requires c != 0 && Idle(cfg, [c]) && !cfg.Special(c)
    ensures Bare([c]).Fits(cfg) && Bare([c]).Written() == [c]
  {
    assert c in [c];
  }

  lemma EndAhead(cfg: Config, c: u8, ps: seq<Piece>, last: seq<Part>)
    requires FitLine(cfg, ps, last) && c != 0 && (c in cfg.brk || Blank(cfg, c))
    ensures var qs := [Piece([], c)] + ps; FitLine(cfg, qs, last) && Line(qs, last) == [c] + Line(ps, last)
  {
    var qs := [Piece([], c)] + ps;
    assert qs[1..] == ps && qs[0].parts == [];
  }

  lemma Found(s: seq<u8>, m: u8) returns (j: nat)
    ensures j <= |s| && m !in s[..j] && (j < |s| ==> s[j] == m)
  {
    j := 0;
    while j < |s| && s[j] != m
      invariant j <= |s| && m !in s[..j]
    {
      j := j + 1;
    }
  }

  /** A quote and what is behind it. */
  lemma QuoteAhead(cfg: Config, m: u8, rest: seq<u8>) returns (ps: seq<Piece>, last: seq<Part>)
    requires Opens(cfg, m) && 0 !in rest && Idle(cfg, rest)
    ensures FitLine(cfg, ps, last) && Line(ps, last) == [m] + rest
    decreases |rest|
  {
    hide FitLine, Line;
    var j := Found(rest, m);
    var s := rest[..j];
    if j == |rest| {
      ps, last := [], [Open(m, s)];
      OpenLine(cfg, m, s);
    } else {
      ps, last := EveryLine(cfg, rest[j + 1..]);
      AheadFits(cfg, Between(m, s), ps, last);
      AheadLine(Between(m, s), ps, last);
      var (qs, end) := Ahead(Between(m, s), ps, last);
      ps, last := qs, end;
      assert [m] + s + [m] + rest[j + 1..] == [m] + rest;
    }
  }

  lemma OpenLine(cfg: Config, m: u8, s: seq<u8>)
    requires Opens(cfg, m) && m !in s && Idle(cfg, s)
    ensures FitLine(cfg, [], [Open(m, s)]) && Line([], [Open(m, s)]) == [m] + s
  {
    var last := [Open(m, s)];
    assert last[1..] == [] && Written(last) == [m] + s + [];
  }
}
