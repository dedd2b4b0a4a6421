/** What the command of a line means in terms of the line's own characters, and that
    writing a command down and reading it again gives the same command. */
module ShellMeaning {
  import opened ShellGrammar

  // --- Where the parts of a command stand in the line ----------------------------------------

  /** The sign right before the file tells what is redirected, and how it is opened. */
  ghost predicate SignBefore(t: seq<char>, file: Tok, mode: Mode, fd: int) {
    exists p :: SignAt(t, p, file) && (t[p] == '<' ==> fd == 0 && mode == ReadOnly)
                && (t[p] == '>' ==> fd == 1 && mode == WriteCreate)
  }

  predicate SignAt(t: seq<char>, p: int, file: Tok) {
    0 <= p < file.q <= |t| && (t[p] == '<' || t[p] == '>') && forall k :: p < k < file.q ==> IsSpace(t[k])
  }

  /** The command stands between lo and hi: arguments from left to right; what is left and
      right of a pipe or a list, left and right of its sign; what runs in the background,
      left of its ampersand; of several redirections the outer ones further right. */
  ghost predicate Says(t: seq<char>, c: Cmd, lo: nat, hi: nat) {
    match c
    case Exec(argv) => Ascending(argv, lo) && forall k :: 0 <= k < |argv| ==> argv[k].eq <= hi
    case Redir(c1, file, mode, fd) =>
      && Says(t, c1, lo, hi) && lo <= file.q < file.eq <= hi && SignBefore(t, file, mode, fd)
      && (c1.Redir? ==> c1.file.eq <= file.q)
    case Pipe(l, r) => exists p: nat {:trigger Splits(t, '|', p, lo, hi)} ::
      Splits(t, '|', p, lo, hi) && Says(t, l, lo, p) && Says(t, r, p + 1, hi)
    case List(l, r) => exists p: nat {:trigger Splits(t, ';', p, lo, hi)} ::
      Splits(t, ';', p, lo, hi) && Says(t, l, lo, p) && Says(t, r, p + 1, hi)
    case Back(c1) => exists p: nat {:trigger Splits(t, '&', p, lo, hi)} ::
      Splits(t, '&', p, lo, hi) && Says(t, c1, lo, p)
  }

  predicate Splits(t: seq<char>, sign: char, p: nat, lo: nat, hi: nat) {
    lo <= p < hi <= |t| && t[p] == sign
  }

  /** So every word of the command lies between lo and hi: in a pipe or a list every word of
      the left command ends before any of the right one begins. */
  lemma {:induction false} SaysWithin(t: seq<char>, c: Cmd, lo: nat, hi: nat, w: Tok)
    requires Says(t, c, lo, hi) && w in Toks(c)
    ensures lo <= w.q < w.eq <= hi
    decreases c
  {
    match c
    case Exec(argv) => AscendingFrom(argv, lo, w);
    case Redir(c1, file, _, _) =>
      if w in Toks(c1) {
        SaysWithin(t, c1, lo, hi, w);
      }
    case Pipe(l, r) =>
      var p: nat :| Splits(t, '|', p, lo, hi) && Says(t, l, lo, p) && Says(t, r, p + 1, hi);
      if w in Toks(l) {
        SaysWithin(t, l, lo, p, w);
      } else {
        SaysWithin(t, r, p + 1, hi, w);
      }
    case List(l, r) =>
      var p: nat :| Splits(t, ';', p, lo, hi) && Says(t, l, lo, p) && Says(t, r, p + 1, hi);
      if w in Toks(l) {
        SaysWithin(t, l, lo, p, w);
      } else {
        SaysWithin(t, r, p + 1, hi, w);
      }
    case Back(c1) =>
      var p: nat :| Splits(t, '&', p, lo, hi) && Says(t, c1, lo, p);
      SaysWithin(t, c1, lo, p, w);
  }

  lemma {:induction false} AscendingFrom(ws: seq<Tok>, lo: nat, w: Tok)
    requires Ascending(ws, lo) && w in ws
    ensures lo <= w.q < w.eq
  {
    if w != ws[0] {
      AscendingFrom(ws[1..], ws[0].eq, w);
    }
  }

  lemma {:induction false} SaysWider(t: seq<char>, c: Cmd, lo: nat, hi: nat, lo1: nat, hi1: nat)
    requires Says(t, c, lo, hi) && lo1 <= lo && hi <= hi1 <= |t|
    ensures Says(t, c, lo1, hi1)
    decreases c
  {
    match c
    case Exec(argv) => AscendingLower(argv, lo, lo1);
    case Redir(c1, _, _, _) => SaysWider(t, c1, lo, hi, lo1, hi1);
    case Pipe(l, r) =>
      var p: nat :| Splits(t, '|', p, lo, hi) && Says(t, l, lo, p) && Says(t, r, p + 1, hi);
      SaysWider(t, l, lo, p, lo1, p);
      SaysWider(t, r, p + 1, hi, p + 1, hi1);
      assert Splits(t, '|', p, lo1, hi1);
    case List(l, r) =>
      var p: nat :| Splits(t, ';', p, lo, hi) && Says(t, l, lo, p) && Says(t, r, p + 1, hi);
      SaysWider(t, l, lo, p, lo1, p);
      SaysWider(t, r, p + 1, hi, p + 1, hi1);
      assert Splits(t, ';', p, lo1, hi1);
    case Back(c1) =>
      var p: nat :| Splits(t, '&', p, lo, hi) && Says(t, c1, lo, p);
      SaysWider(t, c1, lo, p, lo1, p);
      assert Splits(t, '&', p, lo1, hi1);
  }

  /** Both sides of a sign at m - 1. */
  lemma {:induction false} SaysAround(t: seq<char>, l: Cmd, r: Cmd, lo: nat, s: nat, m: nat, hi: nat)
    requires Says(t, l, lo, s) && Says(t, r, m, hi) && lo <= s < m <= hi <= |t|
    ensures t[m - 1] == '|' ==> Says(t, Pipe(l, r), lo, hi)
    ensures t[m - 1] == ';' ==> Says(t, List(l, r), lo, hi)
  {
    SaysWider(t, l, lo, s, lo, m - 1);
    assert t[m - 1] == '|' ==> Splits(t, '|', m - 1, lo, hi);
    assert t[m - 1] == ';' ==> Splits(t, ';', m - 1, lo, hi);
  }

  lemma {:induction false} SaysBefore(t: seq<char>, c: Cmd, lo: nat, s: nat, hi: nat)
    requires Says(t, c, lo, s) && lo <= s < hi <= |t| && t[hi - 1] == '&'
    ensures Says(t, Back(c), lo, hi)
  {
    SaysWider(t, c, lo, s, lo, hi - 1);
    assert Splits(t, '&', hi - 1, lo, hi);
  }

  // --- The first token, and what is behind it -------------------------------------------------

  lemma {:induction false} FirstToken(t: seq<char>, p: nat, tok: Token, rest: seq<Token>) returns (q: nat)
    requires Line(t) && p < |t| && Tokens(t, p) == [tok] + rest
    ensures p < q < |t| && Tokens(t, q) == rest
    ensures match tok
            case Word(w) => p <= w.q < w.eq == q && forall k :: p <= k < w.q ==> IsSpace(t[k])
            case Redirect(In) => t[q - 1] == '<'
            case Redirect(_) => t[q - 1] == '>'
            case Bar => t[q - 1] == '|'
            case Amp => t[q - 1] == '&'
            case Semi => t[q - 1] == ';'
            case _ => true
  {
    var s := Skip(t, p);
    assert t[s] != NUL;
    var (tok1, e) := TokenAt(t, s);
    q := e;
    assert Tokens(t, p)[0] == tok1 && Tokens(t, p)[1..] == Tokens(t, e) && ([tok] + rest)[1..] == rest;
  }

  /** Redirections one behind the other, from lo on. */
  ghost predicate Redirected(t: seq<char>, rs: seq<Redirection>, lo: nat, hi: nat) {
    rs == [] ||
    (&& lo <= rs[0].file.q < rs[0].file.eq <= hi && SignOf(t, rs[0])
     && Redirected(t, rs[1..], rs[0].file.eq, hi))
  }

  ghost predicate SignOf(t: seq<char>, r: Redirection) {
    exists p :: SignAt(t, p, r.file) && (t[p] == '<' <==> r.sign.In?)
  }

  lemma {:induction false} RedirectedWider(t: seq<char>, rs: seq<Redirection>, lo: nat, hi: nat, lo1: nat, hi1: nat)
    requires Redirected(t, rs, lo, hi) && lo1 <= lo && hi <= hi1
    ensures Redirected(t, rs, lo1, hi1)
  {
    if rs != [] {
      RedirectedWider(t, rs[1..], rs[0].file.eq, hi, rs[0].file.eq, hi1);
    }
  }

  lemma {:induction false} SignPlaced(t: seq<char>, p: nat, r: Redirection, rest: seq<Token>) returns (q: nat)
    requires Line(t) && p < |t| && Tokens(t, p) == [Redirect(r.sign), Word(r.file)] + rest
    ensures p <= r.file.q < r.file.eq == q < |t| && Tokens(t, q) == rest && SignOf(t, r)
  {
    assert [Redirect(r.sign), Word(r.file)] + rest == [Redirect(r.sign)] + ([Word(r.file)] + rest);
    var s := FirstToken(t, p, Redirect(r.sign), [Word(r.file)] + rest);
    q := FirstToken(t, s, Word(r.file), rest);
    assert SignAt(t, s - 1, r.file);
  }

  lemma {:induction false} RedirsPlaced(t: seq<char>, p: nat, rs: seq<Redirection>, rest: seq<Token>) returns (q: nat)
    requires Line(t) && p < |t| && Tokens(t, p) == RedirYield(rs) + rest
    ensures p <= q < |t| && Tokens(t, q) == rest && Redirected(t, rs, p, q)
    decreases |rs|
  {
    if rs == [] {
      assert RedirYield(rs) + rest == rest;
      q := p;
    } else {
      assert RedirYield(rs) + rest == [Redirect(rs[0].sign), Word(rs[0].file)] + (RedirYield(rs[1..]) + rest);
      var s := SignPlaced(t, p, rs[0], RedirYield(rs[1..]) + rest);
      q := RedirsPlaced(t, s, rs[1..], rest);
    }
  }

  lemma {:induction false} ItemsPlaced(t: seq<char>, p: nat, items: seq<Item>, rest: seq<Token>) returns (q: nat)
    requires Line(t) && p < |t| && Tokens(t, p) == ItemYield(items) + rest
    ensures p <= q < |t| && Tokens(t, q) == rest
    ensures Ascending(Args(items), p) && (forall k :: 0 <= k < |Args(items)| ==> Args(items)[k].eq <= q)
    ensures Redirected(t, Redirs(items), p, q)
    decreases |items|
  {
    if items == [] {
      assert ItemYield(items) + rest == rest;
      q := p;
    } else {
      assert ItemYield(items) + rest == OneYield(items[0]) + (ItemYield(items[1..]) + rest);
      var more, args := ItemYield(items[1..]) + rest, Args(items[1..]);
      match items[0]
      case Arg(w) =>
        var s := FirstToken(t, p, Word(w), more);
        q := ItemsPlaced(t, s, items[1..], rest);
        assert Args(items) == [w] + args && Args(items)[1..] == args && Redirs(items) == Redirs(items[1..]);
        RedirectedWider(t, Redirs(items[1..]), s, q, p, q);
      case To(r) =>
        var s := SignPlaced(t, p, r, more);
        q := ItemsPlaced(t, s, items[1..], rest);
        assert Args(items) == args;
        AscendingLower(args, s, p);
        assert Redirs(items) == [r] + Redirs(items[1..]) && Redirs(items)[1..] == Redirs(items[1..]);
    }
  }

  // --- The meaning of a line stands where its tokens are ---------------------------------------

  lemma {:induction false} LastRedirected(t: seq<char>, rs: seq<Redirection>, lo: nat, hi: nat)
    requires rs != [] && Redirected(t, rs, lo, hi)
    ensures Redirected(t, rs[..|rs| - 1], lo, rs[|rs| - 1].file.q)
    ensures var r := rs[|rs| - 1]; lo <= r.file.q < r.file.eq <= hi && SignOf(t, r)
    ensures |rs| > 1 ==> rs[|rs| - 2].file.eq <= rs[|rs| - 1].file.q
    decreases |rs|
  {
    if |rs| > 1 {
      LastRedirected(t, rs[1..], rs[0].file.eq, hi);
      assert rs[1..][..|rs| - 2] == rs[..|rs| - 1][1..];
    }
  }

  lemma {:induction false} WrappedSays(t: seq<char>, c: Cmd, rs: seq<Redirection>, lo: nat, mid: nat, hi: nat)
    requires Says(t, c, lo, hi) && lo <= mid <= hi <= |t| && Redirected(t, rs, mid, hi)
    requires c.Redir? ==> c.file.eq <= mid
    ensures Says(t, Wrapped(c, rs), lo, hi)
    ensures rs != [] ==> Wrapped(c, rs).Redir? && Wrapped(c, rs).file == rs[|rs| - 1].file
    decreases |rs|
  {
    if rs != [] {
      var r, before := rs[|rs| - 1], rs[..|rs| - 1];
      LastRedirected(t, rs, mid, hi);
      RedirectedWider(t, before, mid, r.file.q, mid, hi);
      WrappedSays(t, c, before, lo, mid, hi);
      var p :| SignAt(t, p, r.file) && (t[p] == '<' <==> r.sign.In?);
      assert SignBefore(t, r.file, if r.sign.In? then ReadOnly else WriteCreate, if r.sign.In? then 0 else 1);
    }
  }

  lemma {:induction false} AmpsPlaced(t: seq<char>, c: Cmd, p: nat, mid: nat, n: nat, rest: seq<Token>)
    returns (q: nat)
    requires Line(t) && p <= mid < |t| && Tokens(t, mid) == Amps(n) + rest && Says(t, c, p, mid)
    ensures mid <= q < |t| && Tokens(t, q) == rest && Says(t, Backed(c, n), p, q)
    decreases n
  {
    hide Tokens, Says;
    if n == 0 {
      assert Amps(n) + rest == rest;
      q := mid;
    } else {
      assert Amps(n) + rest == Amps(n - 1) + ([Amp] + rest) by {
        AmpsAtEnd(n - 1);
      }
      var s := AmpsPlaced(t, c, p, mid, n - 1, [Amp] + rest);
      q := FirstToken(t, s, Amp, rest);
      SaysBefore(t, Backed(c, n - 1), p, s, q);
    }
  }

  lemma {:induction false} AmpsAtEnd(n: nat)
    ensures Amps(n + 1) == Amps(n) + [Amp]
  {
  }

  lemma {:induction false} ExecPlaced(t: seq<char>, p: nat, e: ExecTree, rest: seq<Token>) returns (q: nat)
    requires Line(t) && p < |t| && Tokens(t, p) == ExecYield(e) + rest
    ensures p <= q < |t| && Tokens(t, q) == rest && Says(t, ExecCmd(e), p, q)
    decreases e
  {
    match e
    case Block(l, rs) =>
      BlockParts(l, rs, rest);
      var behind := [Close] + (RedirYield(rs) + rest);
      assert ExecYield(e) + rest == [Open] + (LineYield(l) + behind);
      var s := FirstToken(t, p, Open, LineYield(l) + behind);
      var m := LinePlaced(t, s, l, behind);
      var n := FirstToken(t, m, Close, RedirYield(rs) + rest);
      q := RedirsPlaced(t, n, rs, rest);
      SaysWider(t, LineCmd(l), s, m, p, q);
      if LineCmd(l).Redir? {
        SaysWithin(t, LineCmd(l), s, m, LineCmd(l).file);
      }
      WrappedSays(t, LineCmd(l), rs, p, n, q);
    case Simple(items) =>
      q := ItemsPlaced(t, p, items, rest);
      WrappedSays(t, Exec(Args(items)), Redirs(items), p, p, q);
  }

  lemma {:induction false} PipePlaced(t: seq<char>, p: nat, tree: PipeTree, rest: seq<Token>) returns (q: nat)
    requires Line(t) && p < |t| && Tokens(t, p) == PipeYield(tree) + rest
    ensures p <= q < |t| && Tokens(t, q) == rest && Says(t, PipeCmd(tree), p, q)
    decreases tree
  {
    hide Tokens, Says, ExecYield, ExecCmd;
    match tree
    case Last(e) => q := ExecPlaced(t, p, e, rest);
    case Into(e, more) =>
      assert PipeYield(tree) + rest == ExecYield(e) + ([Bar] + (PipeYield(more) + rest));
      var s := ExecPlaced(t, p, e, [Bar] + (PipeYield(more) + rest));
      var m := FirstToken(t, s, Bar, PipeYield(more) + rest);
      q := PipePlaced(t, m, more, rest);
      SaysAround(t, ExecCmd(e), PipeCmd(more), p, s, m, q);
  }

  /** The command of a line stands in the line as Says tells. */
  lemma {:induction false} LinePlaced(t: seq<char>, p: nat, l: LineTree, rest: seq<Token>) returns (q: nat)
    requires Line(t) && p < |t| && Tokens(t, p) == LineYield(l) + rest
    ensures p <= q < |t| && Tokens(t, q) == rest && Says(t, LineCmd(l), p, q)
    decreases l
  {
    hide Tokens, Says;
    LineParts(l, rest);
    var tail := LineTail(l, rest);
    var s := PipePlaced(t, p, l.pipe, Amps(l.amps) + tail);
    var m := AmpsPlaced(t, PipeCmd(l.pipe), p, s, l.amps, tail);
    if l.next.NoMore? {
      q := m;
    } else {
      var n := FirstToken(t, m, Semi, LineYield(l.next.line) + rest);
      q := LinePlaced(t, n, l.next.line, rest);
      SaysAround(t, Backed(PipeCmd(l.pipe), l.amps), LineCmd(l.next.line), p, m, n, q);
    }
  }

  // --- Writing a command down -------------------------------------------------------------------

  /** A command that a line can denote. */
  predicate Writable(c: Cmd, max: nat) {
    match c
    case Exec(argv) => argv == [] || |argv| < max
    case Redir(c1, _, mode, fd) => Writable(c1, max) && fd == if mode == ReadOnly then 0 else 1
    case Pipe(l, r) => Writable(l, max) && Writable(r, max)
    case List(l, r) => Writable(l, max) && Writable(r, max)
    case Back(c1) => Writable(c1, max)
  }

  function Words(ws: seq<Tok>): (ts: seq<Token>)
    ensures |ts| == |ws| && forall k :: 0 <= k < |ts| ==> ts[k] == Word(ws[k])
  {
    seq(|ws|, k requires 0 <= k < |ws| => Word(ws[k]))
  }

  /** Lists bind loosest and to the right, then the ampersand, then pipes, to the right;
      parentheses only where they are needed. */
  function SpellLine(c: Cmd): seq<Token>
    decreases c, 3
  {
    if c.List? then SpellBack(c.left) + [Semi] + SpellLine(c.right) else SpellBack(c)
  }

  function SpellBack(c: Cmd): seq<Token>
    decreases c, if c.List? then 6 else 2
  {
    if c.Back? then SpellBack(c.cmd) + [Amp] else SpellPipe(c)
  }

  function SpellPipe(c: Cmd): seq<Token>
    decreases c, if c.List? || c.Back? then 5 else 1
  {
    if c.Pipe? then SpellExec(c.left) + [Bar] + SpellPipe(c.right) else SpellExec(c)
  }

  function SpellExec(c: Cmd): seq<Token>
    decreases c, if c.Exec? || c.Redir? then 0 else 4
  {
    match c
    case Exec(argv) => Words(argv)
    case Redir(c1, file, mode, _) =>
      SpellExec(c1) + [Redirect(if mode == ReadOnly then In else Out), Word(file)]
    case _ => [Open] + SpellLine(c) + [Close]
  }

  lemma {:induction false} LineReadBack(c: Cmd, max: nat) returns (l: LineTree)
    requires Writable(c, max)
    ensures LineYield(l) == SpellLine(c) && LineCmd(l) == c && LineFits(l, max)
    decreases c, 3
  {
    if c.List? {
      var p, n := BackReadBack(c.left, max);
      var more := LineReadBack(c.right, max);
      l := LineTree(p, n, Then(more));
    } else {
      var p, n := BackReadBack(c, max);
      l := LineTree(p, n, NoMore);
      assert LineYield(l) == PipeYield(p) + Amps(n);
    }
  }

  lemma {:induction false} BackReadBack(c: Cmd, max: nat) returns (p: PipeTree, n: nat)
    requires Writable(c, max)
    ensures PipeYield(p) + Amps(n) == SpellBack(c) && Backed(PipeCmd(p), n) == c && PipeFits(p, max)
    decreases c, if c.List? then 6 else 2
  {
    if c.Back? {
      var m;
      p, m := BackReadBack(c.cmd, max);
      n := m + 1;
      AmpsAtEnd(m);
      assert PipeYield(p) + (Amps(m) + [Amp]) == (PipeYield(p) + Amps(m)) + [Amp];
    } else {
      p := PipeReadBack(c, max);
      n := 0;
      assert PipeYield(p) + Amps(0) == PipeYield(p);
    }
  }

  lemma {:induction false} PipeReadBack(c: Cmd, max: nat) returns (p: PipeTree)
    requires Writable(c, max)
    ensures PipeYield(p) == SpellPipe(c) && PipeCmd(p) == c && PipeFits(p, max)
    decreases c, if c.List? || c.Back? then 5 else 1
  {
    if c.Pipe? {
      var e := ExecReadBack(c.left, max);
      var more := PipeReadBack(c.right, max);
      p := Into(e, more);
    } else {
      var e := ExecReadBack(c, max);
      p := Last(e);
    }
  }

  lemma {:induction false} ExecReadBack(c: Cmd, max: nat) returns (e: ExecTree)
    requires Writable(c, max)
    ensures ExecYield(e) == SpellExec(c) && ExecCmd(e) == c && ExecFits(e, max)
    decreases c, if c.Exec? || c.Redir? then 0 else 4
  {
    match c
    case Exec(argv) =>
      ArgsReadBack(argv);
      e := Simple(ArgItems(argv));
    case Redir(c1, file, mode, fd) =>
      var e1 := ExecReadBack(c1, max);
      var r := Redirection(if mode == ReadOnly then In else Out, file);
      e := RedirReadBack(e1, r, max);
    case _ =>
      var l := LineReadBack(c, max);
      e := Block(l, []);
      assert ExecYield(e) == [Open] + LineYield(l) + [Close];
  }

  function ArgItems(ws: seq<Tok>): seq<Item> {
    if ws == [] then [] else [Arg(ws[0])] + ArgItems(ws[1..])
  }

  lemma {:induction false} ArgsReadBack(ws: seq<Tok>)
    ensures ItemYield(ArgItems(ws)) == Words(ws) && Args(ArgItems(ws)) == ws && Redirs(ArgItems(ws)) == []
  {
    if ws != [] {
      ArgsReadBack(ws[1..]);
      assert ArgItems(ws)[1..] == ArgItems(ws[1..]);
      assert [Word(ws[0])] + Words(ws[1..]) == Words(ws);
    }
  }

  /** One more redirection at the end. */
  lemma {:induction false} RedirReadBack(e1: ExecTree, r: Redirection, max: nat) returns (e: ExecTree)
    requires ExecFits(e1, max)
    ensures ExecYield(e) == ExecYield(e1) + [Redirect(r.sign), Word(r.file)] && ExecFits(e, max)
    ensures ExecCmd(e) == Redir(ExecCmd(e1), r.file, if r.sign.In? then ReadOnly else WriteCreate,
                                if r.sign.In? then 0 else 1)
  {
    match e1
    case Block(l, rs) =>
      e := Block(l, rs + [r]);
      RedirYieldLast(rs, r);
      assert (rs + [r])[..|rs|] == rs;
    case Simple(items) =>
      e := Simple(items + [To(r)]);
      ItemsLast(items, r);
      assert (Redirs(items) + [r])[..|Redirs(items)|] == Redirs(items);
  }

  lemma {:induction false} RedirYieldLast(rs: seq<Redirection>, r: Redirection)
    ensures RedirYield(rs + [r]) == RedirYield(rs) + [Redirect(r.sign), Word(r.file)]
  {
    if rs == [] {
      assert (rs + [r])[1..] == [];
    } else {
      RedirYieldLast(rs[1..], r);
      assert (rs + [r])[1..] == rs[1..] + [r];
    }
  }

  lemma {:induction false} ItemsLast(items: seq<Item>, r: Redirection)
    ensures ItemYield(items + [To(r)]) == ItemYield(items) + [Redirect(r.sign), Word(r.file)]
    ensures Args(items + [To(r)]) == Args(items) && Redirs(items + [To(r)]) == Redirs(items) + [r]
  {
    if items == [] {
      assert (items + [To(r)])[1..] == [];
    } else {
      ItemsLast(items[1..], r);
      assert (items + [To(r)])[1..] == items[1..] + [To(r)];
    }
  }

  /** Every command, written down and read again, is the same command: so the descent gives
      pipes, lists, ampersands, redirections and parentheses the meaning, the precedence and
      the grouping that the writing gives them. */
  lemma {:induction false} ReadBack(c: Cmd, max: nat)
    requires Writable(c, max)
    ensures var r := LineFrom(SpellLine(c), max); r.Ok? && r.rest == [] && LineCmd(r.tree) == c
  {
    var l := LineReadBack(c, max);
    FoundIff(SpellLine(c), max, l);
  }

  lemma {:induction false} WrappedWritable(c: Cmd, rs: seq<Redirection>, max: nat)
    requires Writable(c, max)
    ensures Writable(Wrapped(c, rs), max)
    decreases |rs|
  {
    if rs != [] {
      WrappedWritable(c, rs[..|rs| - 1], max);
    }
  }

  lemma {:induction false} BackedWritable(c: Cmd, n: nat, max: nat)
    requires Writable(c, max)
    ensures Writable(Backed(c, n), max)
  {
    if n > 0 {
      BackedWritable(c, n - 1, max);
    }
  }

  lemma {:induction false} ExecWritable(e: ExecTree, max: nat)
    requires ExecFits(e, max)
    ensures Writable(ExecCmd(e), max)
    decreases e
  {
    match e
    case Block(l, rs) =>
      LineWritable(l, max);
      WrappedWritable(LineCmd(l), rs, max);
    case Simple(items) => WrappedWritable(Exec(Args(items)), Redirs(items), max);
  }

  lemma {:induction false} PipeWritable(p: PipeTree, max: nat)
    requires PipeFits(p, max)
    ensures Writable(PipeCmd(p), max)
    decreases p
  {
    ExecWritable(p.exec, max);
    if p.Into? {
      PipeWritable(p.pipe, max);
    }
  }

  lemma {:induction false} LineWritable(l: LineTree, max: nat)
    requires LineFits(l, max)
    ensures Writable(LineCmd(l), max)
    decreases l
  {
    PipeWritable(l.pipe, max);
    BackedWritable(PipeCmd(l.pipe), l.amps, max);
    if l.next.Then? {
      LineWritable(l.next.line, max);
    }
  }

  /** The commands that lines denote are exactly the writable ones. */
  lemma {:induction false} DenotedIff(c: Cmd, max: nat)
    ensures Writable(c, max) <==> exists l :: LineFits(l, max) && LineCmd(l) == c
  {
    if Writable(c, max) {
      var l := LineReadBack(c, max);
    }
    if l :| LineFits(l, max) && LineCmd(l) == c {
      LineWritable(l, max);
    }
  }
}
