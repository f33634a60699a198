/** What becomes of quoted and escaped text: exactly which items the tokenizer gives back. */
module TokenText {
  import opened Words
  import opened Tokenizer

  // ---- runs of escapes ----

  predicate Escapes(cfg: Config) {
    cfg.escape != 0 && !cfg.Special(cfg.escape)
  }

  /** How many escapes a string begins with; none if the character does not act as an escape. */
  function Run(cfg: Config, s: seq<u8>): (k: nat)
    ensures k <= |s| && forall j :: 0 <= j < k ==> s[j] == cfg.escape
    ensures Escapes(cfg) && k < |s| ==> s[k] != cfg.escape
    ensures k > 0 ==> Escapes(cfg)
  {
    if s != [] && Escapes(cfg) && s[0] == cfg.escape then 1 + Run(cfg, s[1..]) else 0
  }

  function Rep(cfg: Config, k: nat): (r: seq<u8>)
    ensures |r| == k && forall j :: 0 <= j < k ==> r[j] == cfg.escape
  {
    seq(k, _ => cfg.escape)
  }

  /** Every run of escapes in front of a special character or the end is even. */
  predicate Inner(cfg: Config, s: seq<u8>)
    decreases |s|
  {
    var k := Run(cfg, s);
    if k == |s| then k % 2 == 0 else (cfg.Special(s[k]) ==> k % 2 == 0) && Inner(cfg, s[k + 1..])
  }

  /** The same, but the run that begins the string, if there is one, has to be odd in front of a special
      character or the end, and in front of the end more than a single escape. */
  predicate Survives(cfg: Config, s: seq<u8>) {
    var k := Run(cfg, s);
    if k == |s| then k % 2 == 1 && k > 1
    else (cfg.Special(s[k]) ==> k == 0 || k % 2 == 1) && Inner(cfg, s[k + 1..])
  }

  lemma {:induction false} InnerStep(cfg: Config, s: seq<u8>)
    ensures var k := Run(cfg, s);
      Inner(cfg, s) <==> if k == |s| then k % 2 == 0 else (cfg.Special(s[k]) ==> k % 2 == 0) && Inner(cfg, s[k + 1..])
  {
    hide Run;
  }

  lemma {:induction false} RunSplit(cfg: Config, s: seq<u8>)
    ensures s[..Run(cfg, s)] == Rep(cfg, Run(cfg, s))
  {
    hide Run;
  }

  lemma SubSeq(line: seq<u8>, i: nat, s: seq<u8>)
    requires i + |s| <= |line| && line[i..i + |s|] == s
    ensures forall j :: i <= j < i + |s| ==> line[j] == s[j - i]
  {
    forall j | i <= j < i + |s|
      ensures line[j] == s[j - i]
    {
      assert line[i..i + |s|][j - i] == line[j];
    }
  }

  // ---- single scans ----

  lemma ParseGo(cfg: Config, line: seq<u8>, i: nat, mode: Mode, tok: seq<u8>)
    requires i < |line|
    ensures var m := NextMove(cfg, line, i, mode);
      m.Go? ==> Parse(cfg, line, i, mode, tok) == Parse(cfg, line, m.next, m.mode, tok + m.add)
  {
    hide NextMove;
  }

  lemma ParseStop(cfg: Config, line: seq<u8>, i: nat, mode: Mode, tok: seq<u8>)
    requires i < |line|
    ensures var m := NextMove(cfg, line, i, mode);
      m.Stop? ==> Parse(cfg, line, i, mode, tok) == Outcome(tok + m.add, m.next, m.brk)
  {
    hide NextMove;
  }

  lemma ParseEnd(cfg: Config, line: seq<u8>, mode: Mode, tok: seq<u8>)
    ensures Parse(cfg, line, |line|, mode, tok) == Outcome(tok, |line|, 0)
  {}

  /** A scan only adds to the token. */
  lemma {:induction false} ParseExtends(cfg: Config, line: seq<u8>, i: nat, mode: Mode, tok: seq<u8>)
    requires i <= |line|
    ensures tok <= Parse(cfg, line, i, mode, tok).token
    decreases |line| - i, if mode.White? then 1 else 0
  {
    hide NextMove;
    if i < |line| {
      var m := NextMove(cfg, line, i, mode);
      if m.Go? { ParseExtends(cfg, line, m.next, m.mode, tok + m.add); }
    }
  }

  /** Tokens that differ in one place are different. */
  lemma ParseDiffers(cfg: Config, line: seq<u8>, i: nat, mode: Mode, tok: seq<u8>, want: seq<u8>, j: nat)
    requires i <= |line| && j < |tok| && j < |want| && tok[j] != want[j]
    ensures var t := Parse(cfg, line, i, mode, tok).token; t != want && t != []
  {
    hide Parse;
    ParseExtends(cfg, line, i, mode, tok);
    assert Parse(cfg, line, i, mode, tok).token[j] == tok[j];
  }

  predicate RunIn(cfg: Config, line: seq<u8>, i: nat, k: nat) {
    && i + k <= |line| && (forall j :: i <= j < i + k ==> line[j] == cfg.escape)
    && (i + k < |line| ==> line[i + k] != cfg.escape)
  }

  lemma PairMove(cfg: Config, line: seq<u8>, i: nat, k: nat, mode: Mode)
    requires Escapes(cfg) && RunIn(cfg, line, i, k) && k > 0 && !mode.White?
    ensures k > 1 ==> NextMove(cfg, line, i, mode) == Go(i + 2, [cfg.escape, cfg.escape], mode)
    ensures k == 1 && i + 1 == |line| ==> NextMove(cfg, line, i, mode) == Stop(i + 1, [cfg.escape], 0)
    ensures k == 1 && i + 1 < |line| ==>
      NextMove(cfg, line, i, mode) == if cfg.Special(line[i + 1]) then Go(i + 2, [line[i + 1]], mode)
                                      else Go(i + 1, [cfg.escape], mode)
  {}

  /** Within a token or a quote a run of escapes is kept, except that the last of an odd run in front of a
      special character goes and keeps that character instead. */
  lemma {:induction false} RunParse(cfg: Config, line: seq<u8>, i: nat, k: nat, mode: Mode, tok: seq<u8>)
    requires Escapes(cfg) && RunIn(cfg, line, i, k) && !mode.White?
    ensures Parse(cfg, line, i, mode, tok) ==
      if k % 2 == 1 && i + k < |line| && cfg.Special(line[i + k])
      then Parse(cfg, line, i + k + 1, mode, tok + Rep(cfg, k - 1) + [line[i + k]])
      else Parse(cfg, line, i + k, mode, tok + Rep(cfg, k))
    decreases k
  {
    hide Parse, NextMove;
    var e := cfg.escape;
    if k == 0 {
      assert tok + Rep(cfg, 0) == tok;
    } else if k == 1 {
      PairMove(cfg, line, i, k, mode);
      ParseGo(cfg, line, i, mode, tok);
      ParseStop(cfg, line, i, mode, tok);
      ParseEnd(cfg, line, mode, tok + [e]);
      assert Rep(cfg, 1) == [e] && tok + Rep(cfg, 0) == tok;
    } else {
      PairMove(cfg, line, i, k, mode);
      ParseGo(cfg, line, i, mode, tok);
      RunParse(cfg, line, i + 2, k - 2, mode, tok + [e, e]);
      assert [e, e] + Rep(cfg, k - 2) == Rep(cfg, k);
      assert tok + [e, e] + Rep(cfg, k - 2) == tok + Rep(cfg, k);
      if k > 2 {
        assert [e, e] + Rep(cfg, k - 3) == Rep(cfg, k - 1);
        assert tok + [e, e] + Rep(cfg, k - 3) == tok + Rep(cfg, k - 1);
      }
    }
  }

  /** A run in front of a special character keeps an escape in its last place if it is even, and puts the
      special character there if it is odd. */
  lemma RunSpoils(cfg: Config, line: seq<u8>, i: nat, n: nat, mode: Mode, tok: seq<u8>, want: seq<u8>)
    requires Escapes(cfg) && RunIn(cfg, line, i, n) && !mode.White? && n > 0
    requires i + n < |line| && cfg.Special(line[i + n]) && |want| >= |tok| + n
    requires n % 2 == 1 <==> want[|tok| + n - 1] == cfg.escape
    ensures var t := Parse(cfg, line, i, mode, tok).token; t != want && t != []
  {
    hide Parse, RunIn;
    RunParse(cfg, line, i, n, mode, tok);
    var last := |tok| + n - 1;
    if n % 2 == 1 {
      var was := tok + Rep(cfg, n - 1) + [line[i + n]];
      assert was[last] == line[i + n];
      ParseDiffers(cfg, line, i + n + 1, mode, was, want, last);
    } else {
      var was := tok + Rep(cfg, n);
      assert was[last] == cfg.escape;
      ParseDiffers(cfg, line, i + n, mode, was, want, last);
    }
  }

  lemma {:induction false} RunInLine(cfg: Config, line: seq<u8>, i: nat)
    requires Escapes(cfg) && i <= |line|
    ensures RunIn(cfg, line, i, Run(cfg, line[i..]))
    ensures i + 1 < |line| && line[i] == cfg.escape && line[i + 1] == cfg.escape ==> Run(cfg, line[i..]) >= 2
  {
    var s := line[i..];
    forall j | i <= j < |line|
      ensures line[j] == s[j - i]
    {}
    if |s| > 1 {
      RunLess(cfg, s);
    }
  }

  /** At the beginning of a token the first of several escapes is kept by itself, so that the others are
      paired differently. It makes a difference exactly if a special character follows the run. */
  lemma DoubleEscapeDiffers(cfg: Config, line: seq<u8>, i: nat, tok: seq<u8>)
    requires Escapes(cfg) && i + 1 < |line| && line[i] == cfg.escape && line[i + 1] == cfg.escape
    ensures var k := Run(cfg, line[i..]);
      var kept := Parse(cfg, line, i + k, Token, tok + Rep(cfg, k));
      var white, token := Parse(cfg, line, i, White, tok), Parse(cfg, line, i, Token, tok);
      && k >= 2 && (white != token <==> i + k < |line| && cfg.Special(line[i + k]))
      && (white == token ==> white == kept)
      && (white != token ==>
            var protected := Parse(cfg, line, i + k + 1, Token, tok + Rep(cfg, k - 1) + [line[i + k]]);
            white == (if k % 2 == 0 then protected else kept) && token == if k % 2 == 0 then kept else protected)
  {
    hide Parse, Run;
    var e, k := cfg.escape, Run(cfg, line[i..]);
    RunInLine(cfg, line, i);
    ParseGo(cfg, line, i, White, tok);
    RunParse(cfg, line, i + 1, k - 1, Token, tok + [e]);
    RunParse(cfg, line, i, k, Token, tok);
    assert tok + [e] + Rep(cfg, k - 1) == tok + Rep(cfg, k);
    assert tok + [e] + Rep(cfg, k - 2) == tok + Rep(cfg, k - 1);
    if i + k < |line| && cfg.Special(line[i + k]) {
      var a, b := tok + Rep(cfg, k), tok + Rep(cfg, k - 1) + [line[i + k]];
      ParseExtends(cfg, line, i + k, Token, a);
      ParseExtends(cfg, line, i + k + 1, Token, b);
      assert a[|tok| + k - 1] != b[|tok| + k - 1];
    }
  }

  // ---- items put together and taken apart ----

  /** In front of more text a separator changes nothing; at the end it yields nothing. */
  lemma LeadingBlank(cfg: Config, line: seq<u8>, i: nat)
    requires i < |line| && Blank(cfg, line[i])
    ensures Tokens(cfg, line, i) == Tokens(cfg, line, i + 1)
  {
    var nothing: seq<u8> := [];
    assert nothing + [] == nothing;
  }

  lemma OneToken(cfg: Config, line: seq<u8>, i: nat, s: seq<u8>, j: nat)
    requires i < |line| && s != [] && Parse(cfg, line, i, White, []) == Outcome(s, j, 0)
    ensures j <= |line| && Tokens(cfg, line, i) == [s] + Tokens(cfg, line, j)
  {
    hide Parse;
  }

  lemma OtherToken(cfg: Config, line: seq<u8>, i: nat, items: seq<seq<u8>>)
    requires i < |line| && items != []
    requires var t := Parse(cfg, line, i, White, []).token; t != [] && t != items[0]
    ensures Tokens(cfg, line, i) != items
  {
    hide Parse;
  }

  /** One item more: what is known of the item at `i`, which ends at the separator `j`, and of the rest. */
  lemma ItemMore(cfg: Config, line: seq<u8>, i: nat, j: nat, items: seq<seq<u8>>, good: bool, rest: bool)
    requires i < |line| && j < |line| && Blank(cfg, line[j]) && items != [] && items[0] != []
    requires good ==> Parse(cfg, line, i, White, []) == Outcome(items[0], j, 0)
    requires !good ==> var t := Parse(cfg, line, i, White, []).token; t != items[0] && t != []
    requires rest <==> Tokens(cfg, line, j + 1) == items[1..]
    ensures Tokens(cfg, line, i) == items <==> good && rest
  {
    hide Parse, Tokens, Blank;
    if good {
      OneToken(cfg, line, i, items[0], j);
      LeadingBlank(cfg, line, j);
      assert ([items[0]] + Tokens(cfg, line, j + 1))[1..] == Tokens(cfg, line, j + 1);
      assert items == [items[0]] + items[1..];
    } else {
      OtherToken(cfg, line, i, items);
    }
  }

  // ---- quotes ----

  /** Every item between quotes, followed by a separator. */
  function Quoted(items: seq<seq<u8>>, mark: u8, sep: u8): seq<u8> {
    if items == [] then [] else [mark] + items[0] + [mark, sep] + Quoted(items[1..], mark, sep)
  }

  lemma QuoteMove(cfg: Config, line: seq<u8>, i: nat, mark: u8)
    requires i < |line| && line[i] != mark && !(Escapes(cfg) && line[i] == cfg.escape)
    ensures NextMove(cfg, line, i, Quote(mark)) == Go(i + 1, [line[i]], Quote(mark))
  {}

  /** Up to the first character behind the run that begins a quoted string. */
  lemma QuoteBegins(cfg: Config, line: seq<u8>, i: nat, mark: u8, s: seq<u8>, tok: seq<u8>)
    requires i + |s| < |line| && line[i..i + |s|] == s && line[i + |s|] == mark && mark in cfg.quote && mark !in s
    ensures var k, p := Run(cfg, s), Parse(cfg, line, i, Quote(mark), tok);
      if k % 2 == 1 && (k == |s| || cfg.Special(s[k])) then p.token != tok + s && p.token != []
      else if k == |s| then p == Parse(cfg, line, i + |s|, Quote(mark), tok + s)
      else p == Parse(cfg, line, i + k + 1, Quote(mark), tok + s[..k + 1])
  {
    hide Parse, NextMove, Run;
    var k := Run(cfg, s);
    RunSplit(cfg, s);
    SubSeq(line, i, s);
    if k > 0 { RunParse(cfg, line, i, k, Quote(mark), tok); }
    assert tok + Rep(cfg, 0) == tok && s[..|s|] == s;
    if k % 2 == 1 && (k == |s| || cfg.Special(s[k])) {
      RunSpoils(cfg, line, i, k, Quote(mark), tok, tok + s);
    } else if k < |s| {
      assert s[k] in s;
      QuoteMove(cfg, line, i + k, mark);
      ParseGo(cfg, line, i + k, Quote(mark), tok + Rep(cfg, k));
      assert tok + Rep(cfg, k) + [s[k]] == tok + s[..k + 1];
    }
  }

  /** Between quotes a string is kept exactly if its runs of escapes are even where they have to be. */
  lemma {:induction false} InQuotes(cfg: Config, line: seq<u8>, i: nat, mark: u8, s: seq<u8>, tok: seq<u8>)
    requires i + |s| < |line| && line[i..i + |s|] == s && line[i + |s|] == mark && mark in cfg.quote && mark !in s
    ensures Inner(cfg, s) ==> Parse(cfg, line, i, Quote(mark), tok) == Parse(cfg, line, i + |s|, Quote(mark), tok + s)
    ensures !Inner(cfg, s) ==> var t := Parse(cfg, line, i, Quote(mark), tok).token; t != tok + s && t != []
    decreases |s|
  {
    hide Parse, Run, Inner;
    var k := Run(cfg, s);
    InnerStep(cfg, s);
    QuoteBegins(cfg, line, i, mark, s, tok);
    if k < |s| && (cfg.Special(s[k]) ==> k % 2 == 0) {
      var rest := s[k + 1..];
      assert line[i + k + 1..i + k + 1 + |rest|] == line[i..i + |s|][k + 1..];
      InQuotes(cfg, line, i + k + 1, mark, rest, tok + s[..k + 1]);
      assert tok + s[..k + 1] + rest == tok + s;
    }
  }

  /** Where the parts of a quoted item are in the line. */
  lemma QuotedParts(line: seq<u8>, i: nat, mark: u8, sep: u8, s: seq<u8>, rest: seq<u8>)
    requires i <= |line| && line[i..] == [mark] + s + [mark, sep] + rest
    ensures i + |s| + 2 < |line| && line[i] == mark && line[i + |s| + 1] == mark && line[i + |s| + 2] == sep
    ensures line[i + 1..i + 1 + |s|] == s && line[i + |s| + 3..] == rest
  {
    var tail := line[i..];
    assert tail[0] == mark && tail[|s| + 1] == mark && tail[|s| + 2] == sep;
    assert tail[1..|s| + 1] == s && tail[|s| + 3..] == rest;
    assert line[i + 1..i + 1 + |s|] == tail[1..|s| + 1];
    assert line[i + |s| + 3..] == tail[|s| + 3..];
  }

  lemma QuotedScan(cfg: Config, line: seq<u8>, i: nat, mark: u8, s: seq<u8>)
    requires mark in cfg.quote && mark !in cfg.brk && mark !in s
    requires i + |s| + 2 < |line| && line[i] == mark && line[i + |s| + 1] == mark && Blank(cfg, line[i + |s| + 2])
    requires line[i + 1..i + 1 + |s|] == s
    ensures Inner(cfg, s) ==> Parse(cfg, line, i, White, []) == Outcome(s, i + |s| + 2, 0)
    ensures !Inner(cfg, s) ==> var t := Parse(cfg, line, i, White, []).token; t != s && t != []
  {
    hide Parse, Inner;
    ParseGo(cfg, line, i, White, []);
    InQuotes(cfg, line, i + 1, mark, s, []);
    assert [] + s == s && s + [] == s;
    ParseGo(cfg, line, i + 1 + |s|, Quote(mark), s);
    ParseStop(cfg, line, i + |s| + 2, Token, s);
  }

  /** Quoting is undone for exactly the items whose runs of escapes are even in front of special characters
      and at the end; in particular for all items without escapes. */
  lemma {:induction false} QuotingComesBack(cfg: Config, line: seq<u8>, i: nat, mark: u8, sep: u8, items: seq<seq<u8>>)
    requires mark in cfg.quote && mark !in cfg.brk && Blank(cfg, sep)
    requires forall k :: 0 <= k < |items| ==> items[k] != [] && mark !in items[k]
    requires i <= |line| && line[i..] == Quoted(items, mark, sep)
    ensures Tokens(cfg, line, i) == items <==> forall k :: 0 <= k < |items| ==> Inner(cfg, items[k])
    decreases |items|
  {
    hide Parse, Tokens, Blank, Inner;
    if items == [] {
      TokensEnd(cfg, line);
    } else {
      var s := items[0];
      QuotedParts(line, i, mark, sep, s, Quoted(items[1..], mark, sep));
      QuotedScan(cfg, line, i, mark, s);
      QuotingComesBack(cfg, line, i + |s| + 3, mark, sep, items[1..]);
      ItemMore(cfg, line, i, i + |s| + 2, items, Inner(cfg, s), Tokens(cfg, line, i + |s| + 3) == items[1..]);
      assert forall k :: 1 <= k < |items| ==> items[k] == items[1..][k - 1];
    }
  }

  // ---- escapes ----

  /** A character, behind an escape if it is special. */
  function Behind(cfg: Config, c: u8): seq<u8> {
    if cfg.Special(c) then [cfg.escape, c] else [c]
  }

  /** Every special character behind an escape. */
  function Escaped(cfg: Config, s: seq<u8>): seq<u8> {
    if s == [] then [] else Behind(cfg, s[0]) + Escaped(cfg, s[1..])
  }

  function EscapedList(cfg: Config, items: seq<seq<u8>>, sep: u8): seq<u8> {
    if items == [] then [] else Escaped(cfg, items[0]) + [sep] + EscapedList(cfg, items[1..], sep)
  }

  lemma {:induction false} RunLess(cfg: Config, s: seq<u8>)
    requires Escapes(cfg) && s != []
    ensures Run(cfg, s) == if s[0] == cfg.escape then Run(cfg, s[1..]) + 1 else 0
    ensures |s| > 1 && s[0] == cfg.escape && s[1] == cfg.escape ==> Run(cfg, s) > 1
  {}

  lemma {:induction false} EscapedStep(cfg: Config, s: seq<u8>)
    ensures s == [] ==> Escaped(cfg, s) == []
    ensures s != [] ==> Escaped(cfg, s) == Behind(cfg, s[0]) + Escaped(cfg, s[1..])
  {}

  lemma {:induction false} EscapedRun(cfg: Config, s: seq<u8>)
    requires Escapes(cfg)
    ensures var k := Run(cfg, s);
      Escaped(cfg, s) == Rep(cfg, k) + if k == |s| then [] else Behind(cfg, s[k]) + Escaped(cfg, s[k + 1..])
  {
    hide Run, Escaped;
    var k := Run(cfg, s);
    EscapedStep(cfg, s);
    if k > 0 {
      RunLess(cfg, s);
      EscapedRun(cfg, s[1..]);
      assert [cfg.escape] + Rep(cfg, k - 1) == Rep(cfg, k);
      if k < |s| { assert s[1..][k - 1] == s[k] && s[1..][k..] == s[k + 1..]; }
    }
  }

  /** Where the parts of an escaped string are in the line. */
  lemma EscapedParts(cfg: Config, line: seq<u8>, i: nat, s: seq<u8>)
    requires Escapes(cfg) && i + |Escaped(cfg, s)| < |line| && line[i..i + |Escaped(cfg, s)|] == Escaped(cfg, s)
    requires cfg.Special(line[i + |Escaped(cfg, s)|])
    ensures var k := Run(cfg, s);
      if k == |s| then |Escaped(cfg, s)| == k && RunIn(cfg, line, i, k)
      else
        var n, e := if cfg.Special(s[k]) then k + 1 else k, Escaped(cfg, s[k + 1..]);
        && RunIn(cfg, line, i, n) && i + n < |line| && line[i + n] == s[k]
        && |Escaped(cfg, s)| == n + 1 + |e| && line[i + n + 1..i + n + 1 + |e|] == e
  {
    hide Escaped, Run;
    var k, e := Run(cfg, s), Escaped(cfg, s);
    EscapedRun(cfg, s);
    forall j | 0 <= j < |e|
      ensures line[i + j] == e[j]
    {
      assert line[i..i + |e|][j] == e[j];
    }
    if k < |s| {
      var n := if cfg.Special(s[k]) then k + 1 else k;
      assert e[n + 1..] == Escaped(cfg, s[k + 1..]);
      assert line[i + n + 1..i + |e|] == e[n + 1..];
    }
  }

  /** An odd run in front of a special character or the end spoils an escaped string. */
  lemma TokenSpoilt(cfg: Config, line: seq<u8>, i: nat, s: seq<u8>, tok: seq<u8>)
    requires Escapes(cfg) && i + |Escaped(cfg, s)| < |line| && line[i..i + |Escaped(cfg, s)|] == Escaped(cfg, s)
    requires cfg.Special(line[i + |Escaped(cfg, s)|])
    requires var k := Run(cfg, s); k % 2 == 1 && (k == |s| || cfg.Special(s[k]))
    ensures var t := Parse(cfg, line, i, Token, tok).token; t != tok + s && t != []
  {
    hide Parse, Run, Escaped, RunIn;
    var k := Run(cfg, s);
    EscapedParts(cfg, line, i, s);
    assert tok <= tok + s && (tok + s)[|tok|..] == s;
    RunSpoils(cfg, line, i, if k == |s| then k else k + 1, Token, tok, tok + s);
  }

  /** Up to the first character behind the run that begins an escaped string, if that run is in order. */
  lemma TokenRun(cfg: Config, line: seq<u8>, i: nat, s: seq<u8>, tok: seq<u8>) returns (j: nat)
    requires Escapes(cfg) && i + |Escaped(cfg, s)| < |line| && line[i..i + |Escaped(cfg, s)|] == Escaped(cfg, s)
    requires cfg.Special(line[i + |Escaped(cfg, s)|])
    requires var k := Run(cfg, s); !(k % 2 == 1 && (k == |s| || cfg.Special(s[k])))
    ensures var k := Run(cfg, s);
      && j <= |line|
      && Parse(cfg, line, i, Token, tok) == Parse(cfg, line, j, Token, tok + if k == |s| then s else s[..k + 1])
      && (if k == |s| then j == i + |Escaped(cfg, s)|
          else j + |Escaped(cfg, s[k + 1..])| == i + |Escaped(cfg, s)|
               && line[j..i + |Escaped(cfg, s)|] == Escaped(cfg, s[k + 1..]))
  {
    hide Parse, Run, Escaped;
    var k := Run(cfg, s);
    RunSplit(cfg, s);
    EscapedParts(cfg, line, i, s);
    assert tok + Rep(cfg, k) == tok + s[..k] && s[..|s|] == s;
    if k == |s| {
      RunParse(cfg, line, i, k, Token, tok);
      j := i + k;
    } else {
      assert tok + Rep(cfg, k) + [s[k]] == tok + s[..k + 1];
      if cfg.Special(s[k]) {
        RunParse(cfg, line, i, k + 1, Token, tok);
        j := i + k + 2;
      } else {
        RunParse(cfg, line, i, k, Token, tok);
        ParseGo(cfg, line, i + k, Token, tok + Rep(cfg, k));
        j := i + k + 1;
      }
    }
  }

  /** Within a token an escaped string is kept exactly if its runs of escapes are even where they have to
      be. */
  lemma {:induction false} InToken(cfg: Config, line: seq<u8>, i: nat, s: seq<u8>, tok: seq<u8>)
    requires Escapes(cfg) && i + |Escaped(cfg, s)| < |line| && line[i..i + |Escaped(cfg, s)|] == Escaped(cfg, s)
    requires cfg.Special(line[i + |Escaped(cfg, s)|])
    ensures Inner(cfg, s) ==> Parse(cfg, line, i, Token, tok) == Parse(cfg, line, i + |Escaped(cfg, s)|, Token, tok + s)
    ensures !Inner(cfg, s) ==> var t := Parse(cfg, line, i, Token, tok).token; t != tok + s && t != []
    decreases |s|
  {
    hide Parse, Run, Escaped, Inner;
    var k := Run(cfg, s);
    InnerStep(cfg, s);
    if k % 2 == 1 && (k == |s| || cfg.Special(s[k])) {
      TokenSpoilt(cfg, line, i, s, tok);
    } else {
      var j := TokenRun(cfg, line, i, s, tok);
      if k < |s| {
        InToken(cfg, line, j, s[k + 1..], tok + s[..k + 1]);
        assert tok + s[..k + 1] + s[k + 1..] == tok + s;
      }
    }
  }

  /** Two or more escapes at the beginning: the first is kept, the rest is as within a token. */
  predicate Doubled(cfg: Config, s: seq<u8>) {
    |s| > 1 && s[0] == cfg.escape && (s[1] == cfg.escape || cfg.Special(s[1]))
  }

  lemma {:induction false} SurvivesInner(cfg: Config, s: seq<u8>)
    requires Escapes(cfg) && s != []
    ensures Survives(cfg, s) <==> Inner(cfg, if Doubled(cfg, s) then s[1..] else s)
  {
    hide Run, Inner;
    var k := Run(cfg, s);
    RunLess(cfg, s);
    InnerStep(cfg, s);
    InnerStep(cfg, s[1..]);
    if Doubled(cfg, s) && k < |s| { assert s[1..][k - 1] == s[k] && s[1..][k..] == s[k + 1..]; }
  }

  /** How the first step of a token leads into it. */
  lemma TokenBegins(cfg: Config, line: seq<u8>, i: nat, s: seq<u8>)
    requires Escapes(cfg) && s != [] && i + |Escaped(cfg, s)| < |line|
    requires line[i..i + |Escaped(cfg, s)|] == Escaped(cfg, s)
    requires cfg.Special(line[i + |Escaped(cfg, s)|])
    ensures !Doubled(cfg, s) ==> Parse(cfg, line, i, White, []) == Parse(cfg, line, i, Token, [])
    ensures Doubled(cfg, s) ==> Parse(cfg, line, i, White, []) == Parse(cfg, line, i + 1, Token, [cfg.escape])
    ensures Doubled(cfg, s) ==> Escaped(cfg, s) == [cfg.escape] + Escaped(cfg, s[1..])
  {
    hide Parse;
    var e, none: seq<u8> := Escaped(cfg, s), [];
    forall j | 0 <= j < |e|
      ensures line[i + j] == e[j]
    {
      assert line[i..i + |e|][j] == e[j];
    }
    FirstTwo(cfg, s);
    assert none + [] == none && forall c :: none + [c] == [c];
    ParseGo(cfg, line, i, White, []);
    ParseGo(cfg, line, i, Token, []);
  }

  lemma {:induction false} FirstTwo(cfg: Config, s: seq<u8>)
    requires Escapes(cfg) && s != []
    ensures |Escaped(cfg, s)| > 0 && Escaped(cfg, s)[0] == if cfg.Special(s[0]) then cfg.escape else s[0]
    ensures Escaped(cfg, s)[0] == cfg.escape && |Escaped(cfg, s)| > 1 ==>
      (Escaped(cfg, s)[1] == cfg.escape <==> Doubled(cfg, s))
    ensures Doubled(cfg, s) ==> |Escaped(cfg, s)| > 1
  {
    if |s| > 1 { assert s[1..][0] == s[1]; }
  }

  lemma EscapedItem(cfg: Config, line: seq<u8>, i: nat, sep: u8, s: seq<u8>, rest: seq<u8>)
    requires Escapes(cfg) && s != [] && Blank(cfg, sep)
    requires i <= |line| && line[i..] == Escaped(cfg, s) + [sep] + rest
    ensures var j := i + |Escaped(cfg, s)|; i < j < |line| && line[j] == sep && line[j + 1..] == rest
    ensures Survives(cfg, s) ==> Parse(cfg, line, i, White, []) == Outcome(s, i + |Escaped(cfg, s)|, 0)
    ensures !Survives(cfg, s) ==> var t := Parse(cfg, line, i, White, []).token; t != s && t != []
  {
    hide Parse, Inner, Survives, Escaped;
    var e, tail := Escaped(cfg, s), line[i..];
    var j := i + |e|;
    assert tail[|e|] == sep && line[j] == sep;
    assert line[i..j] == tail[..|e|] == e;
    assert line[j + 1..] == tail[|e| + 1..] == rest;
    FirstTwo(cfg, s);
    SurvivesInner(cfg, s);
    TokenBegins(cfg, line, i, s);
    if Doubled(cfg, s) {
      assert line[i + 1..j] == e[1..] == Escaped(cfg, s[1..]);
      InToken(cfg, line, i + 1, s[1..], [cfg.escape]);
      assert [cfg.escape] + s[1..] == s;
    } else {
      InToken(cfg, line, i, s, []);
      assert [] + s == s;
    }
    ParseStop(cfg, line, j, Token, s);
    assert s + [] == s;
  }

  /** Escaping the special characters is undone for exactly the items that survive; in particular for all
      items without escapes. */
  lemma {:induction false} EscapingComesBack(cfg: Config, line: seq<u8>, i: nat, sep: u8, items: seq<seq<u8>>)
    requires Escapes(cfg) && Blank(cfg, sep)
    requires forall k :: 0 <= k < |items| ==> items[k] != []
    requires i <= |line| && line[i..] == EscapedList(cfg, items, sep)
    ensures Tokens(cfg, line, i) == items <==> forall k :: 0 <= k < |items| ==> Survives(cfg, items[k])
    decreases |items|
  {
    hide Parse, Tokens, Escaped, Blank, Escapes, Survives;
    if items == [] {
      TokensEnd(cfg, line);
    } else {
      var s := items[0];
      var j := i + |Escaped(cfg, s)|;
      EscapedItem(cfg, line, i, sep, s, EscapedList(cfg, items[1..], sep));
      EscapingComesBack(cfg, line, j + 1, sep, items[1..]);
      ItemMore(cfg, line, i, j, items, Survives(cfg, s), Tokens(cfg, line, j + 1) == items[1..]);
      assert forall k :: 1 <= k < |items| ==> items[k] == items[1..][k - 1];
    }
  }

  /** Without escapes everything comes back. */
  lemma {:induction false} NoEscapes(cfg: Config, s: seq<u8>)
    requires s != [] && (Escapes(cfg) ==> cfg.escape !in s)
    ensures Inner(cfg, s) && Survives(cfg, s)
    decreases |s|
  {
    assert s[0] in s;
    assert Run(cfg, s) == 0;
    if |s| > 1 { NoEscapes(cfg, s[1..]); }
  }
}
