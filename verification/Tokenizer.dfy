/** The quoting tokenizer: what one scan of the line returns, and the loop that does it in place. */
module Tokenizer {
  import opened Words

  // ---- one token ----

  /** Separators, break characters and quotes; `escape` is 0 if there is none. */
  datatype Config = Config(white: seq<u8>, brk: seq<u8>, quote: seq<u8>, escape: u8) {
    predicate Special(c: u8) {
      c in white || c in brk || c in quote
    }
  }

  datatype Mode = White | Token | Quote(mark: u8)

  /** A token, the place where the scan stopped, and the break character that stopped it, or 0. */
  datatype Outcome = Outcome(token: seq<u8>, next: nat, brk: u8)

  predicate Blank(cfg: Config, c: u8) {
    c in cfg.white && c !in cfg.brk && c !in cfg.quote
  }

  /** One step of the scan: it stops, or goes on at a place in a mode, and adds characters. */
  datatype Move = Stop(next: nat, add: seq<u8>, brk: u8) | Go(next: nat, add: seq<u8>, mode: Mode)

  function NextMove(cfg: Config, line: seq<u8>, i: nat, mode: Mode): (r: Move)
    requires i < |line|
    ensures i <= r.next <= |line| && |r.add| <= r.next - i
    ensures r.next == i ==> if r.Go? then mode.White? && r.mode.Token? && !Blank(cfg, line[i])
      else mode.Token? && Blank(cfg, line[i])
  {
    var c := line[i];
    if c in cfg.brk then
      if mode.Quote? then Go(i + 1, [c], mode) else Stop(i + 1, [], c)
    else if c in cfg.quote then
      if !mode.Quote? then Go(i + 1, [], Quote(c))
      else if c != mode.mark then Go(i + 1, [c], mode)
      else Go(i + 1, [], Token)
    else if c in cfg.white then
      match mode
      case White => Go(i + 1, [], mode)
      case Token => Stop(i, [], 0)
      case Quote(_) => Go(i + 1, [c], mode)
    else if cfg.escape != 0 && c == cfg.escape then
      if i + 1 == |line| then Stop(i + 1, [c], 0)
      else if line[i + 1] == cfg.escape then
        if mode.White? then Go(i + 1, [c], Token) else Go(i + 2, [c, c], mode)
      else if mode.White? then Go(i, [], Token)
      else if cfg.Special(line[i + 1]) then Go(i + 2, [line[i + 1]], mode)
      else Go(i + 1, [c], mode)
    else Go(i + 1, [c], if mode.White? then Token else mode)
  }

  /** Scans from `i` in a mode, behind the characters `tok` of the token. */
  function Parse(cfg: Config, line: seq<u8>, i: nat, mode: Mode, tok: seq<u8>): (r: Outcome)
    requires i <= |line|
    ensures i <= r.next <= |line| && |r.token| <= |tok| + r.next - i
    ensures r.next == i ==> i == |line| || (mode.Token? && Blank(cfg, line[i]))
    decreases |line| - i, if mode.White? then 1 else 0
  {
    if i == |line| then Outcome(tok, i, 0) else
      match NextMove(cfg, line, i, mode)
      case Stop(next, add, brk) => Outcome(tok + add, next, brk)
      case Go(next, add, mode') => Parse(cfg, line, next, mode', tok + add)
  }

  /** The tokens and break strings from `i` on. */
  function Tokens(cfg: Config, line: seq<u8>, i: nat): seq<seq<u8>>
    requires i <= |line|
    decreases |line| - i
  {
    if i == |line| then [] else
      var o := Parse(cfg, line, i, White, []);
      Emitted(o) + Tokens(cfg, line, o.next)
  }

  function Emitted(o: Outcome): seq<seq<u8>> {
    (if o.token != [] then [o.token] else []) + (if o.brk != 0 then [[o.brk]] else [])
  }

  // ---- the loop ----

  /** A character at an index, with the terminator behind the last one. */
  function CharAt(line: seq<u8>, i: int): (c: int)
    requires 0 <= i <= |line|
  {
    if i < |line| then line[i] else 0
  }

  class LpState {
    const line: seq<u8>
    const cfg: Config
    var lindex: int
    var isBreak: u8

    constructor (line: seq<u8>, cfg: Config)
      ensures this.line == line && this.cfg == cfg && lindex == 0
    {
      this.line, this.cfg, lindex, isBreak := line, cfg, 0, 0;
    }

    /** Stores a character unless the buffer is full. */
    method StoreChr(token: array<u8>, size: nat, sindex: nat, c: u8) returns (next: nat)
      requires size <= token.Length
      modifies token
      ensures sindex < size ==> next == sindex + 1 && token[..next] == old(token[..sindex]) + [c]
      ensures sindex >= size ==> next == sindex && token[..] == old(token[..])
    {
      next := sindex;
      if sindex < size {
        token[sindex] := c;
        next := sindex + 1;
      }
    }

    /** The part of the loop at an escape character. The index goes back where an escape begins a token,
        so that the loop meets the same character again. */
    method ScanEscape(token: array<u8>, toksize: nat, tokindex: nat, mode: Mode)
      returns (stop: bool, next: nat, after: Mode)
      requires 0 <= lindex < |line| < toksize < token.Length && 0 !in line && tokindex <= lindex
      requires var c := line[lindex]; c == cfg.escape && c !in cfg.brk && c !in cfg.quote && c !in cfg.white
      modifies this`lindex, token
      ensures var m := NextMove(cfg, line, old(lindex), mode);
        && next <= token.Length && token[..next] == old(token[..tokindex]) + m.add && stop == m.Stop?
        && (if stop then lindex == m.next && m.brk == 0 else lindex + 1 == m.next && after == m.mode)
    {
      var c := line[lindex];
      next, after := tokindex, mode;
      ghost var tok := token[..tokindex];
      assert tok + [c] + [c] == tok + [c, c] && tok + [] == tok;
      var nc := CharAt(line, lindex + 1);
      if nc == 0 || nc == cfg.escape {
        next := StoreChr(token, toksize, next, c);
        lindex := lindex + 1;
        if nc == 0 {
          return true, next, after;
        }
      }
      if mode.White? {
        lindex := lindex - 1;
        after := Token;
      } else if cfg.Special(nc) {
        lindex := lindex + 1;
        next := StoreChr(token, toksize, next, line[lindex]);
      } else {
        next := StoreChr(token, toksize, next, line[lindex]);
      }
      stop := false;
    }

    /** The body of the loop up to the advance of the index. */
    method Scan(token: array<u8>, toksize: nat, tokindex: nat, mode: Mode) returns (stop: bool, next: nat, after: Mode)
      requires 0 <= lindex < |line| < toksize < token.Length && 0 !in line && tokindex <= lindex && isBreak == 0
      modifies this, token
      ensures var m := NextMove(cfg, line, old(lindex), mode);
        && next <= token.Length && token[..next] == old(token[..tokindex]) + m.add && stop == m.Stop?
        && (if stop then lindex == m.next && isBreak == m.brk
            else lindex + 1 == m.next && after == m.mode && isBreak == 0)
    {
      var c := line[lindex];
      stop, next, after := false, tokindex, mode;
      assert token[..tokindex] + [] == token[..tokindex];
      if c in cfg.brk {
        if !mode.Quote? {
          lindex := lindex + 1;
          isBreak := c;
          stop := true;
        } else {
          next := StoreChr(token, toksize, tokindex, c);
        }
      } else if c in cfg.quote {
        if !mode.Quote? {
          after := Quote(c);
        } else if c != mode.mark {
          next := StoreChr(token, toksize, tokindex, c);
        } else {
          after := Token;
        }
      } else if c in cfg.white {
        if mode.Token? {
          stop := true;
        } else if mode.Quote? {
          next := StoreChr(token, toksize, tokindex, c);
        }
      } else if cfg.escape != 0 && c == cfg.escape {
        stop, next, after := ScanEscape(token, toksize, tokindex, mode);
      } else {
        if mode.White? {
          after := Token;
        }
        next := StoreChr(token, toksize, tokindex, c);
      }
    }

    /** Scans one token into the buffer. */
    method LpParse(token: array<u8>, toksize: nat) returns (more: bool, toklen: nat)
      requires 0 <= lindex <= |line| < toksize < token.Length && 0 !in line
      modifies this, token
      ensures more <==> old(lindex) < |line|
      ensures more ==>
        var o := Parse(cfg, line, old(lindex), White, []);
        toklen < toksize && token[..toklen] == o.token && lindex == o.next && isBreak == o.brk
    {
      hide NextMove;
      var tokindex: nat := 0;
      token[0] := 0;
      var mode := White;
      isBreak := 0;
      ghost var start := lindex;
      var c := CharAt(line, lindex);
      if c == 0 {
        return false, 0;
      }
      while c != 0
        invariant 0 <= start <= lindex <= |line| && c == CharAt(line, lindex) && isBreak == 0
        invariant tokindex <= lindex - start
        invariant Parse(cfg, line, start, White, []) == Parse(cfg, line, lindex, mode, token[..tokindex])
        decreases |line| - lindex, if mode.White? then 1 else 0
      {
        var stop;
        stop, tokindex, mode := Scan(token, toksize, tokindex, mode);
        if stop {
          break;
        }
        lindex := lindex + 1;
        c := CharAt(line, lindex);
      }
      assert tokindex < toksize;
      token[tokindex] := 0;
      return true, tokindex;
    }
  }

  function Default(chars: Option<seq<u8>>, usual: seq<u8>): seq<u8> {
    if chars.None? then usual else chars.value
  }

  /** Splits a line. A set that is not given is space and tab, semicolon and bar, or both kinds of quotes. */
  method Etokl(line: seq<u8>, white: Option<seq<u8>>, brk: Option<seq<u8>>, quote: Option<seq<u8>>, escape: u8)
    returns (tl: seq<seq<u8>>)
    requires 0 !in line
    ensures tl == Tokens(Config(if white.Some? then white.value else [32, 9],
                                if brk.Some? then brk.value else [59, 124],
                                if quote.Some? then quote.value else [34, 39], escape), line, 0)
  {
    hide Parse, Tokens;
    var cfg := Config(Default(white, [32, 9]), Default(brk, [59, 124]), Default(quote, [34, 39]), escape);
    TokensEnd(cfg, line);
    var st := new LpState(line, cfg);
    var toksize := |line| + 1;
    var token := new u8[toksize + 1](i => 0);
    tl := [];
    var more: bool, toklen: nat := st.LpParse(token, toksize);
    ghost var at := 0;
    while more
      invariant 0 <= at <= |line| && more == (at < |line|) && fresh(st) && fresh(token)
      invariant st.line == line && st.cfg == cfg && token.Length == toksize + 1
      invariant more ==> toklen < toksize < token.Length && 0 <= st.lindex <= |line| && at < st.lindex
      invariant more ==> Parse(cfg, line, at, White, []) == Outcome(token[..toklen], st.lindex, st.isBreak)
      invariant tl + Tokens(cfg, line, at) == Tokens(cfg, line, 0)
      decreases |line| - at
    {
      TokensStep(cfg, line, at, tl);
      if toklen > 0 {
        tl := tl + [token[..toklen]];
      }
      if st.isBreak != 0 {
        tl := tl + [[st.isBreak]];
      }
      at := st.lindex;
      more, toklen := st.LpParse(token, toksize);
    }
  }

  lemma TokensOf(cfg: Config, line: seq<u8>, i: nat)
    requires i < |line|
    ensures var o := Parse(cfg, line, i, White, []); Tokens(cfg, line, i) == Emitted(o) + Tokens(cfg, line, o.next)
  {
    hide Parse, Emitted;
  }

  lemma EmittedBehind(o: Outcome, tl: seq<seq<u8>>)
    ensures var tl' := if o.token != [] then tl + [o.token] else tl;
      (if o.brk != 0 then tl' + [[o.brk]] else tl') == tl + Emitted(o)
  {}

  lemma TokensStep(cfg: Config, line: seq<u8>, i: nat, tl: seq<seq<u8>>)
    requires i < |line|
    ensures var o := Parse(cfg, line, i, White, []);
      var tl' := if o.token != [] then tl + [o.token] else tl;
      var tl'' := if o.brk != 0 then tl' + [[o.brk]] else tl';
      tl'' + Tokens(cfg, line, o.next) == tl + Tokens(cfg, line, i)
  {
    hide Parse, Tokens, Emitted;
    var o := Parse(cfg, line, i, White, []);
    TokensOf(cfg, line, i);
    EmittedBehind(o, tl);
    assert tl + (Emitted(o) + Tokens(cfg, line, o.next)) == tl + Emitted(o) + Tokens(cfg, line, o.next);
  }

  lemma TokensEnd(cfg: Config, line: seq<u8>)
    ensures Tokens(cfg, line, |line|) == []
  {}

  // ---- every token is read off the line in order ----

  /** `a` is what remains of `b` when some characters are left out. */
  ghost predicate Subsequence(a: seq<u8>, b: seq<u8>) {
    if a == [] then true
    else if b == [] then false
    else (a[0] == b[0] && Subsequence(a[1..], b[1..])) || Subsequence(a, b[1..])
  }

  lemma {:induction false} SubSkip(a: seq<u8>, x: seq<u8>, b: seq<u8>)
    requires Subsequence(a, b)
    ensures Subsequence(a, x + b)
  {
    if x == [] {
      assert x + b == b;
    } else {
      SubSkip(a, x[1..], b);
      assert (x + b)[1..] == x[1..] + b;
    }
  }

  lemma {:induction false} SubPlus(a: seq<u8>, b: seq<u8>, c: seq<u8>, d: seq<u8>)
    requires Subsequence(a, b) && Subsequence(c, d)
    ensures Subsequence(a + c, b + d)
  {
    if a == [] {
      assert a + c == c;
      SubSkip(c, b, d);
    } else {
      assert (b + d)[1..] == b[1..] + d && (a + c)[1..] == a[1..] + c;
      if a[0] == b[0] && Subsequence(a[1..], b[1..]) {
        SubPlus(a[1..], b[1..], c, d);
      } else {
        SubPlus(a, b[1..], c, d);
      }
    }
  }

  function Flat(tl: seq<seq<u8>>): seq<u8> {
    if tl == [] then [] else tl[0] + Flat(tl[1..])
  }

  function Mark(brk: u8): seq<u8> {
    if brk != 0 then [brk] else []
  }

  lemma SubSame(c: seq<u8>, x: seq<u8>)
    requires (|c| <= 1 && c == x) || (|c| == 2 && c == x) || c == [] || (|x| == 2 && c == [x[1]])
    ensures Subsequence(c, x)
  {}

  lemma MoveFrom(cfg: Config, line: seq<u8>, i: nat, mode: Mode)
    requires i < |line| && 0 !in line
    ensures var m := NextMove(cfg, line, i, mode);
      Subsequence(m.add + (if m.Stop? then Mark(m.brk) else []), line[i..m.next])
  {
    hide Subsequence;
    var m := NextMove(cfg, line, i, mode);
    SubSame(m.add + (if m.Stop? then Mark(m.brk) else []), line[i..m.next]);
  }

  /** What a scan adds to the token, with the break character, comes from the part of the line it passed. */
  lemma {:induction false} ParsedFrom(cfg: Config, line: seq<u8>, i: nat, mode: Mode,
                                      tok: seq<u8>) returns (add: seq<u8>)
    requires i <= |line| && 0 !in line
    ensures var o := Parse(cfg, line, i, mode, tok);
      o.token == tok + add && Subsequence(add + Mark(o.brk), line[i..o.next])
    decreases |line| - i, if mode.White? then 1 else 0
  {
    hide Subsequence, NextMove;
    var o := Parse(cfg, line, i, mode, tok);
    if i == |line| {
      add := [];
      assert add + Mark(o.brk) == [] && tok + [] == tok;
      SubSame([], line[i..i]);
    } else {
      var m := NextMove(cfg, line, i, mode);
      MoveFrom(cfg, line, i, mode);
      if m.Stop? {
        add := m.add;
      } else {
        var rest := ParsedFrom(cfg, line, m.next, m.mode, tok + m.add);
        add := m.add + rest;
        assert m.add + [] == m.add;
        SubPlus(m.add, line[i..m.next], rest + Mark(o.brk), line[m.next..o.next]);
        assert line[i..o.next] == line[i..m.next] + line[m.next..o.next];
        assert add + Mark(o.brk) == m.add + (rest + Mark(o.brk));
      }
    }
  }

  /** The tokens and break strings, put together, are a subsequence of the line. */
  lemma {:induction false} TokensFromLine(cfg: Config, line: seq<u8>, i: nat)
    requires i <= |line| && 0 !in line
    ensures Subsequence(Flat(Tokens(cfg, line, i)), line[i..])
    decreases |line| - i
  {
    hide Subsequence, Parse;
    if i == |line| {
      SubSame([], line[i..]);
    } else {
      var o := Parse(cfg, line, i, White, []);
      var add := ParsedFrom(cfg, line, i, White, []);
      EmittedFlat(o);
      assert [] + add == add;
      TokensFromLine(cfg, line, o.next);
      SubPlus(Flat(Emitted(o)), line[i..o.next], Flat(Tokens(cfg, line, o.next)), line[o.next..]);
      FlatPlus(Emitted(o), Tokens(cfg, line, o.next));
      assert line[i..] == line[i..o.next] + line[o.next..];
    }
  }

  lemma EmittedFlat(o: Outcome)
    ensures Flat(Emitted(o)) == o.token + Mark(o.brk)
  {
    assert Flat([o.token]) == o.token + Flat([]);
    assert [o.token, Mark(o.brk)][1..] == [Mark(o.brk)];
    FlatPlus(if o.token != [] then [o.token] else [], if o.brk != 0 then [[o.brk]] else []);
  }

  lemma {:induction false} FlatPlus(a: seq<seq<u8>>, b: seq<seq<u8>>)
    ensures Flat(a + b) == Flat(a) + Flat(b)
  {
    if a == [] {
      assert a + b == b;
    } else {
      assert (a + b)[0] == a[0] && (a + b)[1..] == a[1..] + b;
      FlatPlus(a[1..], b);
    }
  }
}
