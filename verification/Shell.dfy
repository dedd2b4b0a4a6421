/** The shell's recursive-descent parser over one line of text, and the pass that then
    cuts the line into C strings by overwriting separators. */
module Shell {
  import opened ShellGrammar
  import opened ShellMeaning

  /** None is a syntax error: the shell panics. */
  datatype Parsed = Tree(cmd: Cmd) | None

  // --- Tokens as gettoken and peek see them ---------------------------------------------

  /** What gettoken returns for a token. */
  function Code(tok: Token): char {
    match tok
    case Word(_) => 'a'
    case Redirect(In) => '<'
    case Redirect(Out) => '>'
    case Redirect(Append) => '+'
    case Bar => '|'
    case Amp => '&'
    case Semi => ';'
    case Open => '('
    case Close => ')'
  }

  /** The character that peek compares. */
  function Lead(tok: Token): char {
    if tok == Redirect(Append) then '>' else Code(tok)
  }

  lemma {:induction false} LeadOf(t: seq<char>, q: nat, c: char)
    requires Line(t) && q < |t| && t[q] != NUL && !IsSpace(t[q]) && IsSymbol(c)
    ensures Lead(TokenAt(t, q).0) == c <==> t[q] == c
  {
  }

  // --- The two ways of reading a simple command -------------------------------------------

  function AsItems(rs: seq<Redirection>): (items: seq<Item>)
    ensures Args(items) == [] && Redirs(items) == rs
  {
    if rs == [] then [] else [To(rs[0])] + AsItems(rs[1..])
  }

  lemma {:induction false} ArgsBoth(a: seq<Item>, b: seq<Item>)
    ensures Args(a + b) == Args(a) + Args(b)
  {
    if a == [] {
      assert a + b == b;
    } else {
      assert (a + b)[1..] == a[1..] + b;
      ArgsBoth(a[1..], b);
      var first := if a[0].Arg? then [a[0].w] else [];
      assert first + (Args(a[1..]) + Args(b)) == (first + Args(a[1..])) + Args(b);
    }
  }

  lemma {:induction false} RedirsBoth(a: seq<Item>, b: seq<Item>)
    ensures Redirs(a + b) == Redirs(a) + Redirs(b)
  {
    if a == [] {
      assert a + b == b;
    } else {
      assert (a + b)[1..] == a[1..] + b;
      RedirsBoth(a[1..], b);
      var first := if a[0].To? then [a[0].r] else [];
      assert first + (Redirs(a[1..]) + Redirs(b)) == (first + Redirs(a[1..])) + Redirs(b);
    }
  }

  lemma {:induction false} ItemsBoth(a: seq<Item>, b: seq<Item>)
    ensures Args(a + b) == Args(a) + Args(b) && Redirs(a + b) == Redirs(a) + Redirs(b)
  {
    ArgsBoth(a, b);
    RedirsBoth(a, b);
  }

  /** One turn of parseexec's loop. */
  lemma {:induction false} ItemsStep(ts: seq<Token>, argc: nat)
    requires ts != [] ==> !ts[0].Redirect?
    ensures ItemsFrom(ts, argc, MAXARGS)
            == if ts == [] || Stops(ts[0]) then Ok([], ts)
               else if !ts[0].Word? || argc + 1 >= MAXARGS then Panic
               else Behind([Arg(ts[0].w)], ItemsFrom(ts[1..], argc + 1, MAXARGS))
  {
  }

  lemma {:induction false} BehindBoth<T>(a: seq<T>, b: seq<T>, r: Result<seq<T>>)
    ensures Behind(a, Behind(b, r)) == Behind(a + b, r)
  {
    if r.Ok? {
      assert a + (b + r.tree) == (a + b) + r.tree;
    }
  }

  /** Reading redirections first changes nothing. */
  lemma {:induction false} RedirsAreItems(ts: seq<Token>, argc: nat, max: nat)
    ensures var r := RedirsFrom(ts);
            ItemsFrom(ts, argc, max) == if r.Ok? then Behind(AsItems(r.tree), ItemsFrom(r.rest, argc, max)) else Panic
  {
    if ts != [] && ts[0].Redirect? && |ts| > 1 && ts[1].Word? {
      RedirsAreItems(ts[2..], argc, max);
      var first, r := Redirection(ts[0].sign, ts[1].w), RedirsFrom(ts[2..]);
      if r.Ok? {
        assert RedirsFrom(ts).tree == [first] + r.tree && ([first] + r.tree)[1..] == r.tree;
        BehindBoth([To(first)], AsItems(r.tree), ItemsFrom(r.rest, argc, max));
      }
    } else if ts == [] || !ts[0].Redirect? {
      NothingBehind(ItemsFrom(ts, argc, max));
    }
  }

  lemma {:induction false} NothingBehind<T>(r: Result<seq<T>>)
    ensures Behind([], r) == r
  {
    if r.Ok? {
      assert [] + r.tree == r.tree;
    }
  }

  /** More redirections, then the rest. */
  lemma {:induction false} RedirsDone(done: seq<Item>, ts: seq<Token>, argc: nat)
    ensures var r := RedirsFrom(ts);
            Behind(done, ItemsFrom(ts, argc, MAXARGS))
            == if r.Ok? then Behind(done + AsItems(r.tree), ItemsFrom(r.rest, argc, MAXARGS)) else Panic
  {
    RedirsAreItems(ts, argc, MAXARGS);
    var r := RedirsFrom(ts);
    if r.Ok? {
      BehindBoth(done, AsItems(r.tree), ItemsFrom(r.rest, argc, MAXARGS));
    }
  }

  lemma {:induction false} RedirStep(ts: seq<Token>, r: Redirection)
    requires |ts| > 1 && ts[0] == Redirect(r.sign) && ts[1] == Word(r.file)
    ensures RedirsFrom(ts) == Behind([r], RedirsFrom(ts[1..][1..]))
  {
    assert ts[1..][1..] == ts[2..];
  }

  lemma {:induction false} RedirMissing(ts: seq<Token>)
    requires ts != [] && ts[0].Redirect? && (|ts| > 1 ==> !ts[1].Word?)
    ensures RedirsFrom(ts) == Panic
  {
  }

  lemma {:induction false} RedirsEnd(ts: seq<Token>)
    requires ts != [] ==> !ts[0].Redirect?
    ensures RedirsFrom(ts) == Ok([], ts)
  {
  }

  // --- After nulterminate -----------------------------------------------------------------

  /** The line with NUL behind each of the words. */
  function Ended(s: seq<char>, toks: seq<Tok>): (r: seq<char>)
    requires forall k :: 0 <= k < |toks| ==> toks[k].eq < |s|
    ensures |r| == |s|
  {
    if toks == [] then s else Ended(s, toks[..|toks| - 1])[toks[|toks| - 1].eq := NUL]
  }

  lemma {:induction false} EndedBoth(s: seq<char>, a: seq<Tok>, b: seq<Tok>)
    requires forall k :: 0 <= k < |a| ==> a[k].eq < |s|
    requires forall k :: 0 <= k < |b| ==> b[k].eq < |s|
    ensures forall k :: 0 <= k < |a + b| ==> (a + b)[k].eq < |s|
    ensures Ended(s, a + b) == Ended(Ended(s, a), b)
  {
    if b == [] {
      assert a + b == a;
    } else {
      EndedBoth(s, a, b[..|b| - 1]);
      assert (a + b)[..|a + b| - 1] == a + b[..|b| - 1];
    }
  }

  lemma {:induction false} EndedAt(s: seq<char>, toks: seq<Tok>, p: nat)
    requires (forall k :: 0 <= k < |toks| ==> toks[k].eq < |s|) && p < |s|
    ensures Ended(s, toks)[p] == if exists k :: 0 <= k < |toks| && toks[k].eq == p then NUL else s[p]
  {
    if toks != [] {
      var rest := toks[..|toks| - 1];
      EndedAt(s, rest, p);
      if k :| 0 <= k < |toks| && toks[k].eq == p && k < |toks| - 1 {
        assert rest[k].eq == p;
      }
    }
  }

  /** What C reads as the string that begins at q. */
  function CString(s: seq<char>, q: nat): seq<char>
    decreases |s| - q
  {
    if q >= |s| || s[q] == NUL then [] else [s[q]] + CString(s, q + 1)
  }

  lemma {:induction false} CStringIs(s: seq<char>, q: nat, eq: nat)
    requires q <= eq < |s| && s[eq] == NUL && forall p :: q <= p < eq ==> s[p] != NUL
    ensures CString(s, q) == s[q..eq]
    decreases eq - q
  {
    if q < eq {
      CStringIs(s, q + 1, eq);
    }
  }

  /** Every word of toks is one of the line's. */
  ghost predicate AllWords(t: seq<char>, toks: seq<Tok>) {
    forall k :: 0 <= k < |toks| ==> IsWord(t, toks[k])
  }

  lemma {:induction false} WordsOverlapNot(t: seq<char>, v: Tok, w: Tok, p: nat)
    requires IsWord(t, v) && IsWord(t, w) && w.q <= p < w.eq
    ensures v.eq != p
  {
    assert WordChar(t, p);
  }

  /** The words survive: whatever the others' ends overwrote, the C string at each word
      is the word as it stood in the line. */
  lemma {:induction false} WordsSurvive(t: seq<char>, toks: seq<Tok>, k: nat)
    requires AllWords(t, toks) && k < |toks|
    ensures forall j :: 0 <= j < |toks| ==> toks[j].eq < |t|
    ensures Survives(t, Ended(t, toks), toks[k])
  {
    var w, s1 := toks[k], Ended(t, toks);
    forall p: nat | w.q <= p < w.eq
      ensures s1[p] == t[p] != NUL
    {
      EndedAt(t, toks, p);
      assert WordChar(t, p);
      forall j | 0 <= j < |toks|
        ensures toks[j].eq != p
      {
        WordsOverlapNot(t, toks[j], w, p);
      }
    }
    EndedAt(t, toks, w.eq);
    CStringIs(s1, w.q, w.eq);
    assert s1[w.q..w.eq] == t[w.q..w.eq];
  }

  /** The C string at the word is the word. */
  predicate Survives(text: seq<char>, buf: seq<char>, w: Tok) {
    w.q < w.eq < |text| && CString(buf, w.q) == text[w.q..w.eq]
  }

  // --- The parser ---------------------------------------------------------------------------

  class Parser {
    const buf: array<char>
    var ps: nat
    /** The line as it was typed. */
    ghost const text: seq<char>

    ghost predicate Valid()
      reads this, buf
    {
      buf[..] == text && Line(text) && ps < |text|
    }

    /** The tokens not yet read. */
    ghost function Ahead(): seq<Token>
      requires Line(text) && ps < |text|
      reads this`ps
    {
      Tokens(text, ps)
    }

    constructor (buf: array<char>)
      requires Line(buf[..])
      ensures Valid() && this.buf == buf && text == buf[..] && ps == 0
    {
      this.buf, ps := buf, 0;
      text := buf[..];
    }

    method SkipSpace()
      requires Valid()
      modifies this`ps
      ensures Valid() && ps == Skip(text, old(ps)) && Ahead() == old(Ahead())
    {
      while ps < buf.Length - 1 && IsSpace(buf[ps])
        invariant Valid() && old(ps) <= ps
        invariant forall k {:trigger text[k]} :: old(ps) <= k < ps ==> IsSpace(text[k])
      {
        assert text[ps] == buf[ps];
        ps := ps + 1;
      }
      assert text[ps] == buf[ps];
      SkipTwice(text, old(ps), ps);
    }

    /** Skips blanks; tells whether one of these symbols comes next. */
    method Peek(toks: seq<char>) returns (b: bool)
      requires Valid() && forall c :: c in toks ==> IsSymbol(c)
      modifies this`ps
      ensures Valid() && ps == Skip(text, old(ps)) && Ahead() == old(Ahead())
      ensures b == (Ahead() != [] && Lead(Ahead()[0]) in toks)
    {
      SkipSpace();
      b := buf[ps] != NUL && buf[ps] in toks;
      assert text[ps] == buf[ps];
      assert Skip(text, ps) == ps;
      if text[ps] != NUL {
        var c := Lead(TokenAt(text, ps).0);
        if c in toks { LeadOf(text, ps, c); }
        if text[ps] in toks { LeadOf(text, ps, text[ps]); }
      }
    }

    /** Takes the next token: its code, and for a word its bounds; NUL at the end. */
    method Gettoken() returns (tok: char, q: nat, eq: nat)
      requires Valid()
      modifies this`ps
      ensures Valid() && old(ps) <= ps
      ensures old(Ahead()) == [] ==> tok == NUL && Ahead() == []
      ensures old(Ahead()) != [] ==>
                && tok == Code(old(Ahead())[0]) && Ahead() == old(Ahead())[1..] && old(ps) < ps
                && (old(Ahead())[0].Word? ==> old(Ahead())[0].w == Tok(q, eq))
    {
      SkipSpace();
      q := ps;
      tok := buf[ps];
      assert tok == text[q] && Skip(text, q) == q;
      if tok == NUL {
      } else if tok == '>' {
        ps := ps + 1;
        assert buf[ps] == text[ps];
        if buf[ps] == '>' {
          tok := '+';
          ps := ps + 1;
        }
      } else if IsSymbol(tok) {
        ps := ps + 1;
      } else {
        tok := 'a';
        PassWord();
      }
      assert text[q] != NUL ==> tok == Code(TokenAt(text, q).0) && ps == TokenAt(text, q).1;
      eq := ps;
      SkipSpace();
    }

    /** gettoken's loop over a word. */
    method PassWord()
      requires Valid()
      modifies this`ps
      ensures Valid() && ps == WordEnd(text, old(ps))
    {
      while ps < buf.Length - 1 && !IsSpace(buf[ps]) && !IsSymbol(buf[ps])
        invariant Valid() && old(ps) <= ps
        invariant forall p {:trigger WordChar(text, p)} :: old(ps) <= p < ps ==> WordChar(text, p)
      {
        assert buf[ps] == text[ps];
        ps := ps + 1;
      }
      assert buf[ps] == text[ps];
      WordEndIs(text, old(ps), ps);
    }

    /** parseline's loop: one more background command for every &. */
    method ParseBackground(cmd: Cmd) returns (c: Cmd)
      requires Valid()
      modifies this`ps
      ensures Valid() && old(ps) <= ps
      ensures var ts := old(Ahead()); c == Backed(cmd, CountAmps(ts)) && Ahead() == ts[CountAmps(ts)..]
    {
      hide Tokens;
      ghost var ts, n := Ahead(), 0;
      c := cmd;
      var more := Peek(['&']);
      while more
        invariant Valid() && old(ps) <= ps && n <= |ts|
        invariant c == Backed(cmd, n) && Ahead() == ts[n..] && CountAmps(ts) == n + CountAmps(Ahead())
        invariant more == (Ahead() != [] && Ahead()[0].Amp?)
        decreases |text| - ps
      {
        var tok, q, eq := Gettoken();
        c := Back(c);
        n := n + 1;
        more := Peek(['&']);
      }
    }

    /** A line: exactly what LineFrom finds, as a command. */
    method ParseLine() returns (r: Parsed)
      requires Valid()
      modifies this`ps
      ensures Valid() && old(ps) <= ps
      ensures match LineFrom(old(Ahead()), MAXARGS)
              case Panic => r == None
              case Ok(l, rest) => r == Tree(LineCmd(l)) && Ahead() == rest
      decreases |text| - ps, 3
    {
      hide Tokens, PipeFrom, PipeCmd, CountAmps, Backed;
      r := ParsePipe();
      if r == None {
        return;
      }
      var c := ParseBackground(r.cmd);
      var list := Peek([';']);
      if list {
        var tok, q, eq := Gettoken();
        r := ParseLine();
        if r == None {
          return;
        }
        c := List(c, r.cmd);
      }
      r := Tree(c);
    }

    method ParsePipe() returns (r: Parsed)
      requires Valid()
      modifies this`ps
      ensures Valid() && old(ps) <= ps
      ensures match PipeFrom(old(Ahead()), MAXARGS)
              case Panic => r == None
              case Ok(p, rest) => r == Tree(PipeCmd(p)) && Ahead() == rest
      decreases |text| - ps, 2
    {
      hide Tokens, ExecFrom, ExecCmd;
      r := ParseExec();
      if r == None {
        return;
      }
      var pipe := Peek(['|']);
      if pipe {
        var tok, q, eq := Gettoken();
        var rest := ParsePipe();
        if rest == None {
          return None;
        }
        r := Tree(Pipe(r.cmd, rest.cmd));
      }
    }

    /** Redirections, as they will be put around a command, the last outermost. */
    method ParseRedirs() returns (ok: bool, rs: seq<Redirection>)
      requires Valid()
      modifies this`ps
      ensures Valid() && old(ps) <= ps
      ensures match RedirsFrom(old(Ahead()))
              case Panic => !ok
              case Ok(found, rest) => ok && rs == found && Ahead() == rest
    {
      hide Tokens, RedirsFrom;
      rs := [];
      ghost var ts := Ahead();
      NothingBehind(RedirsFrom(ts));
      var redir := Peek(['<', '>']);
      while redir
        invariant Valid() && old(ps) <= ps
        invariant RedirsFrom(ts) == Behind(rs, RedirsFrom(Ahead()))
        invariant redir == (Ahead() != [] && Ahead()[0].Redirect?)
        decreases |text| - ps
      {
        ghost var ts1 := Ahead();
        var tok, q0, eq0 := Gettoken();
        var tok2, q, eq := Gettoken();
        if tok2 != 'a' {
          RedirMissing(ts1);
          return false, rs;
        }
        var r := Redirection(if tok == '<' then In else if tok == '>' then Out else Append, Tok(q, eq));
        RedirStep(ts1, r);
        BehindBoth(rs, [r], RedirsFrom(Ahead()));
        rs := rs + [r];
        redir := Peek(['<', '>']);
      }
      RedirsEnd(Ahead());
      assert rs + [] == rs;
      ok := true;
    }

    method ParseBlock() returns (r: Parsed)
      requires Valid() && Ahead() != [] && Ahead()[0].Open?
      modifies this`ps
      ensures Valid() && old(ps) <= ps
      ensures match BlockFrom(old(Ahead()), MAXARGS)
              case Panic => r == None
              case Ok(e, rest) => r == Tree(ExecCmd(e)) && Ahead() == rest
      decreases |text| - ps, 0
    {
      hide Tokens, LineFrom, RedirsFrom, LineCmd, Wrapped;
      var open := Peek(['(']);
      var tok, q, eq := Gettoken();
      r := ParseLine();
      if r == None {
        return;
      }
      var close := Peek([')']);
      if !close {
        return None;
      }
      tok, q, eq := Gettoken();
      var ok, rs := ParseRedirs();
      r := if ok then Tree(Wrapped(r.cmd, rs)) else None;
    }

    method ParseExec() returns (r: Parsed)
      requires Valid()
      modifies this`ps
      ensures Valid() && old(ps) <= ps
      ensures match ExecFrom(old(Ahead()), MAXARGS)
              case Panic => r == None
              case Ok(e, rest) => r == Tree(ExecCmd(e)) && Ahead() == rest
      decreases |text| - ps, 1
    {
      var open := Peek(['(']);
      if open {
        r := ParseBlock();
      } else {
        r := ParseSimple();
      }
    }

    /** parseexec for a command that is not a block. */
    method ParseSimple() returns (r: Parsed)
      requires Valid()
      modifies this`ps
      ensures Valid() && old(ps) <= ps
      ensures match ItemsFrom(old(Ahead()), 0, MAXARGS)
              case Panic => r == None
              case Ok(items, rest) => r == Tree(ExecCmd(Simple(items))) && Ahead() == rest
    {
      hide Tokens, ItemsFrom, RedirsFrom, Wrapped, Args, Redirs;
      ghost var ts, done := Ahead(), [];
      var argv: seq<Tok> := [];
      NothingBehind(ItemsFrom(ts, 0, MAXARGS));
      RedirsDone([], ts, 0);
      var ok, rs := ParseRedirs();
      if !ok {
        return None;
      }
      done := AsItems(rs);
      assert [] + done == done;
      while true
        invariant Valid() && old(ps) <= ps && |argv| < MAXARGS
        invariant Args(done) == argv && Redirs(done) == rs
        invariant Ahead() != [] ==> !Ahead()[0].Redirect?
        invariant ItemsFrom(ts, 0, MAXARGS) == Behind(done, ItemsFrom(Ahead(), |argv|, MAXARGS))
        decreases |text| - ps
      {
        var stop := Peek(['|', ')', '&', ';']);
        ItemsStep(Ahead(), |argv|);
        if stop {
          break;
        }
        var tok, q, eq := Gettoken();
        if tok == NUL {
          break;
        }
        if tok != 'a' || |argv| + 1 >= MAXARGS {
          return None;
        }
        argv, rs, done, ok := ParseArgument(argv, rs, Tok(q, eq), done);
        if !ok {
          return None;
        }
      }
      assert done + [] == done;
      r := Tree(Wrapped(Exec(argv), rs));
    }

    /** The word just read joins the arguments; redirections may follow it. */
    method ParseArgument(argv0: seq<Tok>, rs0: seq<Redirection>, w: Tok, ghost done0: seq<Item>)
      returns (argv: seq<Tok>, rs: seq<Redirection>, ghost done: seq<Item>, ok: bool)
      requires Valid() && Args(done0) == argv0 && Redirs(done0) == rs0
      modifies this`ps
      ensures Valid() && old(ps) <= ps && argv == argv0 + [w]
      ensures var r := Behind(done0, Behind([Arg(w)], ItemsFrom(old(Ahead()), |argv|, MAXARGS)));
              if ok then Args(done) == argv && Redirs(done) == rs && (Ahead() != [] ==> !Ahead()[0].Redirect?)
                         && r == Behind(done, ItemsFrom(Ahead(), |argv|, MAXARGS))
              else r == Panic
    {
      hide Tokens, ItemsFrom, RedirsFrom, AsItems;
      ghost var ts := Ahead();
      argv := argv0 + [w];
      BehindBoth(done0, [Arg(w)], ItemsFrom(ts, |argv|, MAXARGS));
      RedirsDone(done0 + [Arg(w)], ts, |argv|);
      var more;
      ok, more := ParseRedirs();
      rs := rs0 + more;
      done := done0 + [Arg(w)] + AsItems(more);
      ItemsBoth(done0, [Arg(w)]);
      ItemsBoth(done0 + [Arg(w)], AsItems(more));
    }

    /** Parses the whole line and cuts it into C strings. */
    method ParseCmd() returns (r: Parsed)
      requires Valid() && ps == 0
      modifies this`ps, buf
      // A line is accepted exactly if the grammar derives it with no command too long,
      ensures r.Tree? <==> exists l :: Derives(text, l)
      // the result is the command of that derivation, of which there is one only,
      ensures forall l :: Derives(text, l) ==> r == Tree(LineCmd(l))
      // it stands in the line sign by sign: pipes, lists, redirections, from left to right,
      ensures r.Tree? ==> Says(text, r.cmd, 0, |text|)
      // and each of its words, which are those of the line, can be read off the buffer.
      ensures r.Tree? ==> forall w :: w in Toks(r.cmd) <==> IsWord(text, w)
      ensures r.Tree? ==> forall k :: 0 <= k < |Toks(r.cmd)| ==> Survives(text, buf[..], Toks(r.cmd)[k])
      ensures r == None ==> buf[..] == text
    {
      ghost var ts := Ahead();
      r := ParseLine();
      if r == None {
        Rejected(text);
        return;
      }
      var b := Peek([]);
      assert Skip(text, ps) == ps;
      if ps != buf.Length - 1 {
        assert Ahead() != [];
        Rejected(text);
        return None;
      }
      ghost var l := LineFrom(ts, MAXARGS).tree;
      Accepted(text);
      Nulterminate(buf, r.cmd);
      forall k | 0 <= k < |Toks(r.cmd)|
        ensures Survives(text, buf[..], Toks(r.cmd)[k])
      {
        WordsSurvive(text, Toks(r.cmd), k);
      }
    }
  }

  /** l is a derivation of the line in which no simple command has MAXARGS words. */
  ghost predicate Derives(t: seq<char>, l: LineTree)
    requires Line(t)
  {
    LineYield(l) == Tokens(t, 0) && LineFits(l, MAXARGS)
  }

  lemma {:induction false} Rejected(t: seq<char>)
    requires Line(t)
    requires var r := LineFrom(Tokens(t, 0), MAXARGS); r.Ok? ==> r.rest != []
    ensures forall l :: !Derives(t, l)
  {
    forall l
      ensures !Derives(t, l)
    {
      FoundIff(Tokens(t, 0), MAXARGS, l);
    }
  }

  lemma {:induction false} Accepted(t: seq<char>)
    requires Line(t)
    requires var r := LineFrom(Tokens(t, 0), MAXARGS); r.Ok? && r.rest == []
    ensures var l := LineFrom(Tokens(t, 0), MAXARGS).tree;
            && Derives(t, l)
            && (forall l1 :: Derives(t, l1) ==> l1 == l)
            && Says(t, LineCmd(l), 0, |t|)
            && (forall w :: w in Toks(LineCmd(l)) <==> IsWord(t, w))
            && AllWords(t, Toks(LineCmd(l)))
  {
    var l := LineFrom(Tokens(t, 0), MAXARGS).tree;
    FoundIff(Tokens(t, 0), MAXARGS, l);
    forall l1 | Derives(t, l1)
      ensures l1 == l
    {
      Unambiguous(l, l1);
    }
    Stands(t, l);
    forall w
      ensures w in Toks(LineCmd(l)) <==> IsWord(t, w)
    {
      WordsOfMeaning(t, l, w);
    }
  }

  lemma {:induction false} Stands(t: seq<char>, l: LineTree)
    requires Line(t) && LineYield(l) == Tokens(t, 0)
    ensures Says(t, LineCmd(l), 0, |t|)
  {
    assert LineYield(l) + [] == LineYield(l);
    var q := LinePlaced(t, 0, l, []);
    SaysWider(t, LineCmd(l), 0, q, 0, |t|);
  }

  /** Puts a NUL behind every word of the tree. */
  method Nulterminate(buf: array<char>, cmd: Cmd)
    requires forall k :: 0 <= k < |Toks(cmd)| ==> Toks(cmd)[k].eq < buf.Length
    modifies buf
    ensures buf[..] == Ended(old(buf[..]), Toks(cmd))
    decreases cmd
  {
    ghost var s := buf[..];
    match cmd
    case Exec(argv) =>
      assert argv == Toks(cmd);
      for i := 0 to |argv|
        invariant forall k :: 0 <= k < i ==> argv[..i][k].eq < |s|
        invariant buf[..] == Ended(s, argv[..i])
      {
        assert argv[..i + 1][..i] == argv[..i];
        buf[argv[i].eq] := NUL;
      }
      assert argv[..|argv|] == argv;
    case Redir(c, file, _, _) =>
      assert Toks(cmd)[|Toks(c)|] == file && Toks(cmd)[..|Toks(c)|] == Toks(c);
      Nulterminate(buf, c);
      buf[file.eq] := NUL;
    case Pipe(l, r) =>
      assert Toks(cmd)[..|Toks(l)|] == Toks(l) && Toks(cmd)[|Toks(l)|..] == Toks(r);
      EndedBoth(s, Toks(l), Toks(r));
      Nulterminate(buf, l);
      Nulterminate(buf, r);
    case List(l, r) =>
      assert Toks(cmd)[..|Toks(l)|] == Toks(l) && Toks(cmd)[|Toks(l)|..] == Toks(r);
      EndedBoth(s, Toks(l), Toks(r));
      Nulterminate(buf, l);
      Nulterminate(buf, r);
    case Back(c) =>
      assert Toks(cmd) == Toks(c);
      Nulterminate(buf, c);
  }
}
