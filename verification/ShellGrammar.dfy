/** The shell's command language: how a line falls into tokens, the grammar as concrete
    syntax trees over them, what command a tree stands for, and the proof that recursive
    descent finds the one tree of a line exactly if there is one. */
module ShellGrammar {

  const MAXARGS := 10
  const NUL := '\0'

  /** A word of the line: first character, and the one behind the last. */
  datatype Tok = Tok(q: nat, eq: nat)

  datatype Mode = ReadOnly | WriteCreate

  datatype Cmd =
    | Exec(argv: seq<Tok>)
    | Redir(cmd: Cmd, file: Tok, mode: Mode, fd: int)
    | Pipe(left: Cmd, right: Cmd)
    | List(left: Cmd, right: Cmd)
    | Back(cmd: Cmd)

  // --- Tokens -----------------------------------------------------------------------

  datatype Sign = In | Out | Append

  datatype Token = Word(w: Tok) | Redirect(sign: Sign) | Bar | Amp | Semi | Open | Close

  predicate IsSpace(c: char) { c in [' ', '\t', '\r', '\n', '\U{B}'] }

  predicate IsSymbol(c: char) { c in ['<', '|', '>', '&', ';', '(', ')'] }

  /** A line ends with its only NUL. */
  ghost predicate Line(t: seq<char>) {
    |t| > 0 && t[|t| - 1] == NUL && forall i :: 0 <= i < |t| - 1 ==> t[i] != NUL
  }

  predicate WordChar(t: seq<char>, p: int) {
    0 <= p < |t| && t[p] != NUL && !IsSpace(t[p]) && !IsSymbol(t[p])
  }

  /** A maximal run of word characters. */
  ghost predicate IsWord(t: seq<char>, w: Tok) {
    && w.q < w.eq < |t| && !WordChar(t, w.q - 1) && !WordChar(t, w.eq)
    && forall p {:trigger WordChar(t, p)} :: w.q <= p < w.eq ==> WordChar(t, p)
  }

  /** A place where no word is cut. */
  predicate Cut(t: seq<char>, p: nat) {
    !WordChar(t, p - 1) || !WordChar(t, p)
  }

  /** The first character from p on that is no blank. */
  function Skip(t: seq<char>, p: nat): (q: nat)
    requires Line(t) && p < |t|
    ensures p <= q < |t| && !IsSpace(t[q]) && forall k {:trigger t[k]} :: p <= k < q ==> IsSpace(t[k])
    decreases |t| - p
  {
    if IsSpace(t[p]) then Skip(t, p + 1) else p
  }

  function WordEnd(t: seq<char>, p: nat): (e: nat)
    requires Line(t) && p < |t|
    ensures p <= e < |t| && !WordChar(t, e) && forall k {:trigger WordChar(t, k)} :: p <= k < e ==> WordChar(t, k)
    decreases |t| - p
  {
    if WordChar(t, p) then WordEnd(t, p + 1) else p
  }

  function SymbolToken(c: char): Token
    requires IsSymbol(c)
  {
    match c
    case '<' => Redirect(In)
    case '>' => Redirect(Out)
    case '|' => Bar
    case '&' => Amp
    case ';' => Semi
    case '(' => Open
    case _ => Close
  }

  /** The token at q, and where it ends. */
  function TokenAt(t: seq<char>, q: nat): (r: (Token, nat))
    requires Line(t) && q < |t| && t[q] != NUL && !IsSpace(t[q])
    ensures q < r.1 < |t|
  {
    if t[q] == '>' && t[q + 1] == '>' then (Redirect(Append), q + 2)
    else if IsSymbol(t[q]) then (SymbolToken(t[q]), q + 1)
    else (Word(Tok(q, WordEnd(t, q))), WordEnd(t, q))
  }

  /** The tokens from p on. */
  function Tokens(t: seq<char>, p: nat): seq<Token>
    requires Line(t) && p < |t|
    decreases |t| - p
  {
    var q := Skip(t, p);
    if t[q] == NUL then [] else [TokenAt(t, q).0] + Tokens(t, TokenAt(t, q).1)
  }

  lemma {:induction false} SkipTwice(t: seq<char>, p: nat, q: nat)
    requires Line(t) && p <= q < |t| && forall k {:trigger t[k]} :: p <= k < q ==> IsSpace(t[k])
    ensures Skip(t, p) == Skip(t, q) && Tokens(t, p) == Tokens(t, q)
    decreases q - p
  {
    if p < q {
      assert IsSpace(t[p]);
      SkipTwice(t, p + 1, q);
    }
  }

  lemma {:induction false} WordEndIs(t: seq<char>, q: nat, e: nat)
    requires Line(t) && q <= e < |t| && !WordChar(t, e)
    requires forall k {:trigger WordChar(t, k)} :: q <= k < e ==> WordChar(t, k)
    ensures WordEnd(t, q) == e
  {
    var f := WordEnd(t, q);
    assert f < e ==> WordChar(t, f);
    assert e < f ==> WordChar(t, e);
  }

  lemma {:induction false} TokenWord(t: seq<char>, q: nat)
    requires Line(t) && q < |t| && t[q] != NUL && !IsSpace(t[q]) && Cut(t, q)
    ensures var (tok, e) := TokenAt(t, q);
            && Cut(t, e)
            && (tok.Word? <==> WordChar(t, q))
            && (tok.Word? ==> tok.w == Tok(q, e) && IsWord(t, tok.w))
            && (!tok.Word? ==> forall k {:trigger WordChar(t, k)} :: q <= k < e ==> !WordChar(t, k))
  {
  }

  /** The words among the tokens are exactly the maximal runs of word characters. */
  lemma {:induction false} TokensFindWords(t: seq<char>, p: nat, w: Tok)
    requires Line(t) && p < |t| && Cut(t, p)
    ensures Word(w) in Tokens(t, p) <==> IsWord(t, w) && p <= w.q
    decreases |t| - p
  {
    var q := Skip(t, p);
    SkippedCut(t, p);
    if t[q] == NUL {
      assert IsWord(t, w) ==> WordChar(t, w.q);
    } else {
      var (tok, e) := TokenAt(t, q);
      TokenWord(t, q);
      TokensFindWords(t, e, w);
      if IsWord(t, w) && p <= w.q < e {
        assert WordChar(t, w.q);
        assert q <= w.q;
        WordStartsHere(t, q, w, e);
      }
    }
  }

  lemma {:induction false} SkippedCut(t: seq<char>, p: nat)
    requires Line(t) && p < |t| && Cut(t, p)
    ensures Cut(t, Skip(t, p))
    ensures forall k {:trigger WordChar(t, k)} :: p <= k < Skip(t, p) ==> !WordChar(t, k)
  {
    var q := Skip(t, p);
    assert q > p ==> IsSpace(t[q - 1]);
  }

  lemma {:induction false} WordStartsHere(t: seq<char>, q: nat, w: Tok, e: nat)
    requires IsWord(t, w) && q <= w.q < e && WordChar(t, q)
    requires forall k {:trigger WordChar(t, k)} :: q <= k < e ==> WordChar(t, k)
    requires e < |t| && !WordChar(t, e)
    ensures w == Tok(q, e)
  {
    assert w.q > q ==> WordChar(t, w.q - 1);
    assert w.eq < e ==> WordChar(t, w.eq);
    assert e < w.eq ==> WordChar(t, e);
  }

  function WordsOf(ts: seq<Token>): seq<Tok> {
    if ts == [] then [] else (if ts[0].Word? then [ts[0].w] else []) + WordsOf(ts[1..])
  }

  lemma {:induction false} InWordsOf(ts: seq<Token>, w: Tok)
    ensures w in WordsOf(ts) <==> Word(w) in ts
  {
    if ts != [] {
      InWordsOf(ts[1..], w);
    }
  }

  lemma {:induction false} WordsOfBoth(a: seq<Token>, b: seq<Token>)
    ensures WordsOf(a + b) == WordsOf(a) + WordsOf(b)
  {
    if a == [] {
      assert a + b == b;
    } else {
      assert (a + b)[1..] == a[1..] + b;
      WordsOfBoth(a[1..], b);
      var first := if a[0].Word? then [a[0].w] else [];
      assert first + (WordsOf(a[1..]) + WordsOf(b)) == (first + WordsOf(a[1..])) + WordsOf(b);
    }
  }

  /** From lo on, one behind the other. */
  predicate Ascending(ws: seq<Tok>, lo: nat) {
    ws == [] || (lo <= ws[0].q < ws[0].eq && Ascending(ws[1..], ws[0].eq))
  }

  lemma {:induction false} AscendingLower(ws: seq<Tok>, lo: nat, lo1: nat)
    requires Ascending(ws, lo) && lo1 <= lo
    ensures Ascending(ws, lo1)
  {
  }

  /** The words come in the order of the line, none twice. */
  lemma {:induction false} WordsInOrder(t: seq<char>, p: nat)
    requires Line(t) && p < |t|
    ensures Ascending(WordsOf(Tokens(t, p)), p)
    decreases |t| - p
  {
    var q := Skip(t, p);
    if t[q] != NUL {
      var (tok, e) := TokenAt(t, q);
      WordsInOrder(t, e);
      assert Tokens(t, p)[1..] == Tokens(t, e);
      var rest := WordsOf(Tokens(t, e));
      if tok.Word? {
        assert WordsOf(Tokens(t, p)) == [Tok(q, e)] + rest && ([Tok(q, e)] + rest)[1..] == rest;
      } else {
        assert WordsOf(Tokens(t, p)) == rest;
        AscendingLower(rest, e, p);
      }
    }
  }

  /** How a token is written. */
  function Spelling(t: seq<char>, tok: Token): seq<char> {
    match tok
    case Word(w) => if w.q <= w.eq <= |t| then t[w.q..w.eq] else []
    case Redirect(In) => ['<']
    case Redirect(Out) => ['>']
    case Redirect(Append) => ['>', '>']
    case Bar => ['|']
    case Amp => ['&']
    case Semi => [';']
    case Open => ['(']
    case Close => [')']
  }

  function Spelled(t: seq<char>, ts: seq<Token>): seq<char> {
    if ts == [] then [] else Spelling(t, ts[0]) + Spelled(t, ts[1..])
  }

  function WithoutBlanks(s: seq<char>): seq<char> {
    if s == [] then [] else (if IsSpace(s[0]) then [] else [s[0]]) + WithoutBlanks(s[1..])
  }

  lemma {:induction false} BlanksDropped(s: seq<char>, n: nat)
    requires n <= |s| && forall k {:trigger s[k]} :: 0 <= k < n ==> IsSpace(s[k])
    ensures WithoutBlanks(s) == WithoutBlanks(s[n..])
    decreases n
  {
    if n > 0 {
      assert s[1..][n - 1..] == s[n..];
      BlanksDropped(s[1..], n - 1);
    }
  }

  lemma {:induction false} OthersKept(s: seq<char>, n: nat)
    requires n <= |s| && forall k {:trigger s[k]} :: 0 <= k < n ==> !IsSpace(s[k])
    ensures WithoutBlanks(s) == s[..n] + WithoutBlanks(s[n..])
    decreases n
  {
    if n > 0 {
      OthersKept(s[1..], n - 1);
      assert s[1..][n - 1..] == s[n..] && [s[0]] + s[1..][..n - 1] == s[..n];
    }
  }

  /** Spelled out, the tokens are the line without its blanks: no character is lost, added
      or moved. */
  lemma {:induction false} TokensSpellTheLine(t: seq<char>, p: nat)
    requires Line(t) && p < |t|
    ensures Spelled(t, Tokens(t, p)) == WithoutBlanks(t[p..|t| - 1])
    decreases |t| - p
  {
    var q := Skip(t, p);
    var s := t[p..|t| - 1];
    assert q < |t| - 1 || t[q] == NUL;
    BlanksDropped(s, q - p);
    assert s[q - p..] == t[q..|t| - 1];
    if t[q] != NUL {
      var (tok, e) := TokenAt(t, q);
      TokensSpellTheLine(t, e);
      FirstSpelled(t, q);
      assert Tokens(t, p)[1..] == Tokens(t, e);
    }
  }

  lemma {:induction false} FirstSpelled(t: seq<char>, q: nat)
    requires Line(t) && q < |t| && t[q] != NUL && !IsSpace(t[q])
    ensures var (tok, e) := TokenAt(t, q);
            q < |t| - 1 && WithoutBlanks(t[q..|t| - 1]) == Spelling(t, tok) + WithoutBlanks(t[e..|t| - 1])
  {
    var (tok, e) := TokenAt(t, q);
    var s := t[q..|t| - 1];
    TokenSpelling(t, q);
    OthersKept(s, e - q);
    assert s[..e - q] == t[q..e] && s[e - q..] == t[e..|t| - 1];
  }

  lemma {:induction false} TokenSpelling(t: seq<char>, q: nat)
    requires Line(t) && q < |t| && t[q] != NUL && !IsSpace(t[q])
    ensures var (tok, e) := TokenAt(t, q);
            e < |t| && Spelling(t, tok) == t[q..e] && forall k {:trigger t[k]} :: q <= k < e ==> !IsSpace(t[k])
  {
    var (tok, e) := TokenAt(t, q);
    if tok.Word? {
      forall k | q <= k < e
        ensures !IsSpace(t[k])
      {
        assert WordChar(t, k);
      }
    } else if e == q + 2 {
      assert t[q..e] == [t[q], t[q + 1]];
    } else {
      assert t[q..e] == [t[q]];
    }
  }

  // --- The grammar ----------------------------------------------------------------------
  //
  //   line  = pipe { "&" } [ ";" line ]
  //   pipe  = exec [ "|" pipe ]
  //   exec  = "(" line ")" { redirection }  or  { word or redirection }

  datatype Redirection = Redirection(sign: Sign, file: Tok)

  datatype Item = Arg(w: Tok) | To(r: Redirection)

  datatype LineTree = LineTree(pipe: PipeTree, amps: nat, next: NextLine)

  datatype NextLine = NoMore | Then(line: LineTree)

  datatype PipeTree = Last(exec: ExecTree) | Into(exec: ExecTree, pipe: PipeTree)

  datatype ExecTree = Block(line: LineTree, redirs: seq<Redirection>) | Simple(items: seq<Item>)

  function Amps(n: nat): (ts: seq<Token>)
    ensures |ts| == n && forall i :: 0 <= i < n ==> ts[i] == Amp
  {
    if n == 0 then [] else [Amp] + Amps(n - 1)
  }

  function RedirYield(rs: seq<Redirection>): seq<Token> {
    if rs == [] then [] else [Redirect(rs[0].sign), Word(rs[0].file)] + RedirYield(rs[1..])
  }

  function OneYield(item: Item): (ts: seq<Token>)
    ensures |ts| == if item.Arg? then 1 else 2
  {
    match item
    case Arg(w) => [Word(w)]
    case To(r) => [Redirect(r.sign), Word(r.file)]
  }

  function ItemYield(items: seq<Item>): seq<Token> {
    if items == [] then [] else OneYield(items[0]) + ItemYield(items[1..])
  }

  /** The tokens that a tree derives. */
  function LineYield(l: LineTree): seq<Token> {
    PipeYield(l.pipe) + Amps(l.amps) + if l.next.NoMore? then [] else [Semi] + LineYield(l.next.line)
  }

  function PipeYield(p: PipeTree): seq<Token> {
    match p
    case Last(e) => ExecYield(e)
    case Into(e, p1) => ExecYield(e) + [Bar] + PipeYield(p1)
  }

  function ExecYield(e: ExecTree): seq<Token> {
    match e
    case Block(l, rs) => [Open] + LineYield(l) + [Close] + RedirYield(rs)
    case Simple(items) => ItemYield(items)
  }

  function Args(items: seq<Item>): seq<Tok> {
    if items == [] then [] else (if items[0].Arg? then [items[0].w] else []) + Args(items[1..])
  }

  function Redirs(items: seq<Item>): seq<Redirection> {
    if items == [] then [] else (if items[0].To? then [items[0].r] else []) + Redirs(items[1..])
  }

  /** Every simple command has fewer than max words. */
  predicate LineFits(l: LineTree, max: nat) {
    PipeFits(l.pipe, max) && (l.next.Then? ==> LineFits(l.next.line, max))
  }

  predicate PipeFits(p: PipeTree, max: nat) {
    ExecFits(p.exec, max) && (p.Into? ==> PipeFits(p.pipe, max))
  }

  predicate ExecFits(e: ExecTree, max: nat) {
    match e
    case Block(l, _) => LineFits(l, max)
    case Simple(items) => |Args(items)| == 0 || |Args(items)| < max
  }

  // --- What a tree stands for -----------------------------------------------------------

  /** The command inside its redirections, the first of them innermost. */
  function Wrapped(c: Cmd, rs: seq<Redirection>): Cmd {
    if rs == [] then c
    else
      var r := rs[|rs| - 1];
      var inner := Wrapped(c, rs[..|rs| - 1]);
      if r.sign.In? then Redir(inner, r.file, ReadOnly, 0) else Redir(inner, r.file, WriteCreate, 1)
  }

  function Backed(c: Cmd, n: nat): Cmd {
    if n == 0 then c else Back(Backed(c, n - 1))
  }

  function LineCmd(l: LineTree): Cmd {
    var c := Backed(PipeCmd(l.pipe), l.amps);
    if l.next.NoMore? then c else List(c, LineCmd(l.next.line))
  }

  function PipeCmd(p: PipeTree): Cmd {
    match p
    case Last(e) => ExecCmd(e)
    case Into(e, p1) => Pipe(ExecCmd(e), PipeCmd(p1))
  }

  function ExecCmd(e: ExecTree): Cmd {
    match e
    case Block(l, rs) => Wrapped(LineCmd(l), rs)
    case Simple(items) => Wrapped(Exec(Args(items)), Redirs(items))
  }

  // --- Recursive descent ------------------------------------------------------------------

  datatype Result<T> = Ok(tree: T, rest: seq<Token>) | Panic

  predicate Stops(tok: Token) { tok.Bar? || tok.Close? || tok.Amp? || tok.Semi? }

  function Behind<T>(done: seq<T>, r: Result<seq<T>>): (s: Result<seq<T>>)
    ensures s.Ok? <==> r.Ok?
    ensures s.Ok? ==> s.rest == r.rest
  {
    match r
    case Panic => Panic
    case Ok(more, rest) => Ok(done + more, rest)
  }

  function RedirsFrom(ts: seq<Token>): (r: Result<seq<Redirection>>)
    ensures r.Ok? ==> |r.rest| <= |ts| && (r.rest == [] || !r.rest[0].Redirect?)
  {
    if ts == [] || !ts[0].Redirect? then Ok([], ts)
    else if |ts| == 1 || !ts[1].Word? then Panic
    else Behind([Redirection(ts[0].sign, ts[1].w)], RedirsFrom(ts[2..]))
  }

  /** The items of a simple command that has argc words so far. */
  function ItemsFrom(ts: seq<Token>, argc: nat, max: nat): (r: Result<seq<Item>>)
    ensures r.Ok? ==> |r.rest| <= |ts|
  {
    if ts == [] || Stops(ts[0]) then Ok([], ts)
    else if ts[0].Redirect? then
      if |ts| == 1 || !ts[1].Word? then Panic
      else Behind([To(Redirection(ts[0].sign, ts[1].w))], ItemsFrom(ts[2..], argc, max))
    else if !ts[0].Word? || argc + 1 >= max then Panic
    else Behind([Arg(ts[0].w)], ItemsFrom(ts[1..], argc + 1, max))
  }

  function ExecFrom(ts: seq<Token>, max: nat): (r: Result<ExecTree>)
    ensures r.Ok? ==> |r.rest| <= |ts|
    decreases |ts|, 1
  {
    if ts != [] && ts[0].Open? then BlockFrom(ts, max)
    else
      match ItemsFrom(ts, 0, max)
      case Panic => Panic
      case Ok(items, rest) => Ok(Simple(items), rest)
  }

  function BlockFrom(ts: seq<Token>, max: nat): (r: Result<ExecTree>)
    requires ts != [] && ts[0].Open?
    ensures r.Ok? ==> |r.rest| <= |ts|
    decreases |ts|, 0
  {
    match LineFrom(ts[1..], max)
    case Panic => Panic
    case Ok(l, rest) =>
      if rest == [] || !rest[0].Close? then Panic
      else
        match RedirsFrom(rest[1..])
        case Panic => Panic
        case Ok(rs, rest1) => Ok(Block(l, rs), rest1)
  }

  function PipeFrom(ts: seq<Token>, max: nat): (r: Result<PipeTree>)
    ensures r.Ok? ==> |r.rest| <= |ts|
    decreases |ts|, 2
  {
    match ExecFrom(ts, max)
    case Panic => Panic
    case Ok(e, rest) =>
      if rest == [] || !rest[0].Bar? then Ok(Last(e), rest)
      else
        match PipeFrom(rest[1..], max)
        case Panic => Panic
        case Ok(p, rest1) => Ok(Into(e, p), rest1)
  }

  function CountAmps(ts: seq<Token>): (n: nat)
    ensures n <= |ts| && ts[..n] == Amps(n) && (n < |ts| ==> !ts[n].Amp?)
  {
    if ts == [] || !ts[0].Amp? then 0 else 1 + CountAmps(ts[1..])
  }

  function LineFrom(ts: seq<Token>, max: nat): (r: Result<LineTree>)
    ensures r.Ok? ==> |r.rest| <= |ts|
    decreases |ts|, 3
  {
    match PipeFrom(ts, max)
    case Panic => Panic
    case Ok(p, rest) =>
      var n := CountAmps(rest);
      if n == |rest| || !rest[n].Semi? then Ok(LineTree(p, n, NoMore), rest[n..])
      else
        match LineFrom(rest[n + 1..], max)
        case Panic => Panic
        case Ok(l, rest1) => Ok(LineTree(p, n, Then(l)), rest1)
  }

  // --- Soundness: what is found derives what was read -----------------------------------

  lemma {:induction false} RedirsSound(ts: seq<Token>)
    requires RedirsFrom(ts).Ok?
    ensures var r := RedirsFrom(ts); ts == RedirYield(r.tree) + r.rest && (r.rest == [] || !r.rest[0].Redirect?)
  {
    if ts != [] && ts[0].Redirect? {
      RedirsSound(ts[2..]);
      var r := RedirsFrom(ts);
      assert r.tree[1..] == RedirsFrom(ts[2..]).tree;
      assert ts == ts[..2] + ts[2..];
    }
  }

  lemma {:induction false} ItemJoined(ts: seq<Token>, item: Item, r: Result<seq<Item>>)
    requires r.Ok?
    requires if item.Arg? then ts != [] && ts[0] == Word(item.w) && ts[1..] == ItemYield(r.tree) + r.rest
             else
               && |ts| > 1 && ts[0] == Redirect(item.r.sign) && ts[1] == Word(item.r.file)
               && ts[2..] == ItemYield(r.tree) + r.rest
    ensures ts == ItemYield([item] + r.tree) + r.rest
    ensures Args([item] + r.tree) == (if item.Arg? then [item.w] else []) + Args(r.tree)
  {
    assert ([item] + r.tree)[1..] == r.tree;
  }

  lemma {:induction false} ItemsSound(ts: seq<Token>, argc: nat, max: nat)
    requires ItemsFrom(ts, argc, max).Ok?
    ensures var r := ItemsFrom(ts, argc, max);
            && ts == ItemYield(r.tree) + r.rest && (r.rest == [] || Stops(r.rest[0]))
            && (Args(r.tree) == [] || argc + |Args(r.tree)| < max)
  {
    if ts == [] || Stops(ts[0]) {
    } else if ts[0].Redirect? {
      ItemsSound(ts[2..], argc, max);
      ItemJoined(ts, To(Redirection(ts[0].sign, ts[1].w)), ItemsFrom(ts[2..], argc, max));
    } else {
      ItemsSound(ts[1..], argc + 1, max);
      ItemJoined(ts, Arg(ts[0].w), ItemsFrom(ts[1..], argc + 1, max));
    }
  }

  lemma {:induction false} BlockJoined(ts: seq<Token>, l: LineTree, rest: seq<Token>, r: Result<seq<Redirection>>)
    requires ts != [] && ts[0] == Open && ts[1..] == LineYield(l) + rest && rest != [] && rest[0] == Close
    requires r.Ok? && rest[1..] == RedirYield(r.tree) + r.rest
    ensures ts == ExecYield(Block(l, r.tree)) + r.rest
  {
  }

  lemma {:induction false} ExecSound(ts: seq<Token>, max: nat)
    requires ExecFrom(ts, max).Ok?
    ensures var r := ExecFrom(ts, max); ts == ExecYield(r.tree) + r.rest && ExecFits(r.tree, max)
    decreases |ts|, 1
  {
    if ts != [] && ts[0].Open? {
      var l := LineFrom(ts[1..], max);
      LineSound(ts[1..], max);
      RedirsSound(l.rest[1..]);
      BlockJoined(ts, l.tree, l.rest, RedirsFrom(l.rest[1..]));
    } else {
      ItemsSound(ts, 0, max);
    }
  }

  /** Two parts of ts around a token. */
  lemma {:induction false} Joined(ts: seq<Token>, a: seq<Token>, rest: seq<Token>, op: Token, b: seq<Token>,
                                  rest1: seq<Token>)
    requires ts == a + rest && rest != [] && rest[0] == op && rest[1..] == b + rest1
    ensures ts == (a + [op] + b) + rest1
  {
  }

  lemma {:induction false} PipeSound(ts: seq<Token>, max: nat)
    requires PipeFrom(ts, max).Ok?
    ensures var r := PipeFrom(ts, max); ts == PipeYield(r.tree) + r.rest && PipeFits(r.tree, max)
    decreases |ts|, 2
  {
    ExecSound(ts, max);
    var e := ExecFrom(ts, max);
    if e.rest != [] && e.rest[0].Bar? {
      PipeSound(e.rest[1..], max);
      Joined(ts, ExecYield(e.tree), e.rest, Bar, PipeYield(PipeFrom(e.rest[1..], max).tree), PipeFrom(ts, max).rest);
    }
  }

  lemma {:induction false} LineSound(ts: seq<Token>, max: nat)
    requires LineFrom(ts, max).Ok?
    ensures var r := LineFrom(ts, max); ts == LineYield(r.tree) + r.rest && LineFits(r.tree, max)
    decreases |ts|, 3
  {
    PipeSound(ts, max);
    var p := PipeFrom(ts, max);
    var n := CountAmps(p.rest);
    var front := PipeYield(p.tree) + Amps(n);
    assert ts == front + p.rest[n..] by {
      assert p.rest == p.rest[..n] + p.rest[n..];
    }
    if n < |p.rest| && p.rest[n].Semi? {
      LineSound(p.rest[n + 1..], max);
      var l := LineFrom(p.rest[n + 1..], max);
      assert p.rest[n..][1..] == p.rest[n + 1..];
      Joined(ts, front, p.rest[n..], Semi, LineYield(l.tree), l.rest);
      assert front + [Semi] + LineYield(l.tree) == front + ([Semi] + LineYield(l.tree));
    } else {
      assert front + [] == front;
    }
  }

  // --- Completeness: every tree is found -------------------------------------------------

  predicate EndsExec(rest: seq<Token>) { rest == [] || Stops(rest[0]) }

  predicate EndsPipe(rest: seq<Token>) { EndsExec(rest) && (rest != [] ==> !rest[0].Bar?) }

  predicate EndsLine(rest: seq<Token>) { rest == [] || rest[0].Close? }

  lemma {:induction false} RedirsFound(rs: seq<Redirection>, rest: seq<Token>)
    requires rest == [] || !rest[0].Redirect?
    ensures RedirsFrom(RedirYield(rs) + rest) == Ok(rs, rest)
  {
    var ts := RedirYield(rs) + rest;
    if rs == [] {
      assert ts == rest;
    } else {
      RedirsFound(rs[1..], rest);
      assert ts[2..] == RedirYield(rs[1..]) + rest;
      assert rs == [Redirection(ts[0].sign, ts[1].w)] + rs[1..];
    }
  }

  lemma {:induction false} FirstItem(items: seq<Item>, rest: seq<Token>)
    requires items != []
    ensures var one, ts := OneYield(items[0]), ItemYield(items) + rest;
            && |ts| >= |one| && ts[0] == one[0] && ts[|one| - 1] == one[|one| - 1]
            && ts[|one|..] == ItemYield(items[1..]) + rest
  {
  }

  lemma {:induction false} ItemsFound(items: seq<Item>, rest: seq<Token>, argc: nat, max: nat)
    requires EndsExec(rest) && (Args(items) == [] || argc + |Args(items)| < max)
    ensures ItemsFrom(ItemYield(items) + rest, argc, max) == Ok(items, rest)
  {
    if items == [] {
      assert ItemYield(items) + rest == rest;
    } else {
      FirstItem(items, rest);
      assert items == [items[0]] + items[1..];
      ItemsFound(items[1..], rest, if items[0].Arg? then argc + 1 else argc, max);
    }
  }

  lemma {:induction false} BlockParts(l: LineTree, rs: seq<Redirection>, rest: seq<Token>)
    ensures var ts := ExecYield(Block(l, rs)) + rest;
            ts != [] && ts[0] == Open && ts[1..] == LineYield(l) + ([Close] + (RedirYield(rs) + rest))
  {
  }

  lemma {:induction false} ExecFound(e: ExecTree, rest: seq<Token>, max: nat)
    requires EndsExec(rest) && ExecFits(e, max)
    ensures ExecFrom(ExecYield(e) + rest, max) == Ok(e, rest)
    decreases e
  {
    var ts := ExecYield(e) + rest;
    match e
    case Block(l, rs) =>
      var rest1 := RedirYield(rs) + rest;
      var rest0 := [Close] + rest1;
      BlockParts(l, rs, rest);
      LineFound(l, rest0, max);
      RedirsFound(rs, rest);
      assert rest0[1..] == rest1;
    case Simple(items) =>
      assert items == [] ==> ts == rest;
      ItemsFound(items, rest, 0, max);
  }

  lemma {:induction false} PipeFound(p: PipeTree, rest: seq<Token>, max: nat)
    requires EndsPipe(rest) && PipeFits(p, max)
    ensures PipeFrom(PipeYield(p) + rest, max) == Ok(p, rest)
    decreases p
  {
    var ts := PipeYield(p) + rest;
    match p
    case Last(e) => ExecFound(e, rest, max);
    case Into(e, p1) =>
      var rest1 := [Bar] + (PipeYield(p1) + rest);
      assert ts == ExecYield(e) + rest1 && rest1[1..] == PipeYield(p1) + rest;
      ExecFound(e, rest1, max);
      PipeFound(p1, rest, max);
  }

  lemma {:induction false} AmpsCounted(n: nat, rest: seq<Token>)
    requires rest == [] || !rest[0].Amp?
    ensures CountAmps(Amps(n) + rest) == n
  {
    var ts := Amps(n) + rest;
    if n == 0 {
      assert ts == rest;
    } else {
      assert ts[1..] == Amps(n - 1) + rest;
      AmpsCounted(n - 1, rest);
    }
  }

  /** What follows the ampersands of l, if rest follows l. */
  function LineTail(l: LineTree, rest: seq<Token>): seq<Token> {
    if l.next.NoMore? then rest else [Semi] + (LineYield(l.next.line) + rest)
  }

  lemma {:induction false} LineParts(l: LineTree, rest: seq<Token>)
    ensures var tail := LineTail(l, rest);
            var behind := Amps(l.amps) + tail;
            && LineYield(l) + rest == PipeYield(l.pipe) + behind
            && behind[l.amps..] == tail
            && (l.next.Then? ==> behind[l.amps] == Semi && behind[l.amps + 1..] == LineYield(l.next.line) + rest)
  {
  }

  lemma {:induction false} LineFound(l: LineTree, rest: seq<Token>, max: nat)
    requires EndsLine(rest) && LineFits(l, max)
    ensures LineFrom(LineYield(l) + rest, max) == Ok(l, rest)
    decreases l
  {
    var tail := LineTail(l, rest);
    var behind := Amps(l.amps) + tail;
    LineParts(l, rest);
    PipeFound(l.pipe, behind, max);
    AmpsCounted(l.amps, tail);
    if l.next.Then? {
      LineFound(l.next.line, rest, max);
    }
  }

  // --- Main results ---------------------------------------------------------------------

  /** The descent reads all of ts exactly if a tree derives ts, and then finds that tree. */
  lemma {:induction false} FoundIff(ts: seq<Token>, max: nat, l: LineTree)
    ensures LineFrom(ts, max) == Ok(l, []) <==> LineYield(l) == ts && LineFits(l, max)
  {
    if LineFrom(ts, max) == Ok(l, []) {
      LineSound(ts, max);
      assert LineYield(l) + [] == LineYield(l);
    }
    if LineYield(l) == ts && LineFits(l, max) {
      LineFound(l, [], max);
      assert LineYield(l) + [] == LineYield(l);
    }
  }

  lemma {:induction false} ItemsFitSome(items: seq<Item>)
    ensures |Args(items)| <= |ItemYield(items)|
  {
    if items != [] {
      ItemsFitSome(items[1..]);
    }
  }

  lemma {:induction false} ExecFitsSome(e: ExecTree, max: nat)
    requires |ExecYield(e)| < max
    ensures ExecFits(e, max)
    decreases e
  {
    match e
    case Block(l, rs) => LineFitsSome(l, max);
    case Simple(items) => ItemsFitSome(items);
  }

  lemma {:induction false} PipeFitsSome(p: PipeTree, max: nat)
    requires |PipeYield(p)| < max
    ensures PipeFits(p, max)
    decreases p
  {
    ExecFitsSome(p.exec, max);
    if p.Into? {
      PipeFitsSome(p.pipe, max);
    }
  }

  lemma {:induction false} LineFitsSome(l: LineTree, max: nat)
    requires |LineYield(l)| < max
    ensures LineFits(l, max)
    decreases l
  {
    PipeFitsSome(l.pipe, max);
    if l.next.Then? {
      LineFitsSome(l.next.line, max);
    }
  }

  /** The grammar is unambiguous: no two trees derive the same tokens. */
  lemma {:induction false} Unambiguous(a: LineTree, b: LineTree)
    requires LineYield(a) == LineYield(b)
    ensures a == b
  {
    var ts := LineYield(a);
    LineFitsSome(a, |ts| + 1);
    LineFitsSome(b, |ts| + 1);
    FoundIff(ts, |ts| + 1, a);
    FoundIff(ts, |ts| + 1, b);
  }

  // --- The words of a tree ---------------------------------------------------------------

  /** The words of a command, arguments and files. */
  function Toks(c: Cmd): seq<Tok> {
    match c
    case Exec(argv) => argv
    case Redir(cmd, file, _, _) => Toks(cmd) + [file]
    case Pipe(l, r) => Toks(l) + Toks(r)
    case List(l, r) => Toks(l) + Toks(r)
    case Back(cmd) => Toks(cmd)
  }

  function Files(rs: seq<Redirection>): seq<Tok> {
    if rs == [] then [] else Files(rs[..|rs| - 1]) + [rs[|rs| - 1].file]
  }

  lemma {:induction false} WrappedToks(c: Cmd, rs: seq<Redirection>)
    ensures Toks(Wrapped(c, rs)) == Toks(c) + Files(rs)
  {
    if rs != [] {
      WrappedToks(c, rs[..|rs| - 1]);
    }
  }

  lemma {:induction false} BackedToks(c: Cmd, n: nat)
    ensures Toks(Backed(c, n)) == Toks(c)
  {
    if n > 0 {
      BackedToks(c, n - 1);
    }
  }

  lemma {:induction false} FilesFromFront(rs: seq<Redirection>)
    requires rs != []
    ensures Files(rs) == [rs[0].file] + Files(rs[1..])
  {
    if |rs| > 1 {
      FilesFromFront(rs[..|rs| - 1]);
      assert rs[..|rs| - 1][1..] == rs[1..][..|rs| - 2];
    }
  }

  lemma {:induction false} RedirWords(rs: seq<Redirection>)
    ensures WordsOf(RedirYield(rs)) == Files(rs)
  {
    if rs != [] {
      var two := [Redirect(rs[0].sign), Word(rs[0].file)];
      WordsOfBoth(two, RedirYield(rs[1..]));
      assert two[1..][1..] == [];
      RedirWords(rs[1..]);
      FilesFromFront(rs);
    }
  }

  lemma {:induction false} ItemWords(items: seq<Item>)
    ensures multiset(WordsOf(ItemYield(items))) == multiset(Args(items)) + multiset(Files(Redirs(items)))
  {
    if items != [] {
      ItemWords(items[1..]);
      FirstItemWords(items);
    }
  }

  lemma {:induction false} FirstItemWords(items: seq<Item>)
    requires items != []
    ensures var w := if items[0].Arg? then items[0].w else items[0].r.file;
            && WordsOf(ItemYield(items)) == [w] + WordsOf(ItemYield(items[1..]))
            && Args(items) == (if items[0].Arg? then [w] else []) + Args(items[1..])
            && Files(Redirs(items)) == (if items[0].Arg? then [] else [w]) + Files(Redirs(items[1..]))
  {
    WordsOfBoth(OneYield(items[0]), ItemYield(items[1..]));
    OneWord(items[0]);
    if items[0].To? {
      FilesFromFront(Redirs(items));
      assert Redirs(items)[1..] == Redirs(items[1..]);
    } else {
      assert Redirs(items) == Redirs(items[1..]);
    }
  }

  lemma {:induction false} OneWord(item: Item)
    ensures WordsOf(OneYield(item)) == [if item.Arg? then item.w else item.r.file]
  {
    var ts := OneYield(item);
    if item.To? {
      assert ts[1..] == [Word(item.r.file)];
      assert WordsOf(ts[1..]) == [item.r.file];
    }
  }

  lemma {:induction false} NoWordsInAmps(n: nat)
    ensures WordsOf(Amps(n)) == []
  {
    if n > 0 {
      NoWordsInAmps(n - 1);
    }
  }

  lemma {:induction false} WordsAround(a: seq<Token>, op: Token, b: seq<Token>)
    requires !op.Word?
    ensures WordsOf(a + [op] + b) == WordsOf(a) + WordsOf(b)
  {
    WordsOfBoth(a + [op], b);
    WordsOfBoth(a, [op]);
  }

  lemma {:induction false} ExecWords(e: ExecTree)
    ensures multiset(Toks(ExecCmd(e))) == multiset(WordsOf(ExecYield(e)))
    decreases e
  {
    match e
    case Block(l, rs) =>
      LineWords(l);
      WrappedToks(LineCmd(l), rs);
      RedirWords(rs);
      WordsAround([Open] + LineYield(l), Close, RedirYield(rs));
      WordsOfBoth([Open], LineYield(l));
    case Simple(items) =>
      WrappedToks(Exec(Args(items)), Redirs(items));
      ItemWords(items);
  }

  lemma {:induction false} PipeWords(p: PipeTree)
    ensures multiset(Toks(PipeCmd(p))) == multiset(WordsOf(PipeYield(p)))
    decreases p
  {
    hide WordsOf, ExecYield;
    ExecWords(p.exec);
    if p.Into? {
      PipeWords(p.pipe);
      WordsAround(ExecYield(p.exec), Bar, PipeYield(p.pipe));
    }
  }

  lemma {:induction false} LineYieldWords(l: LineTree)
    ensures WordsOf(LineYield(l))
            == WordsOf(PipeYield(l.pipe)) + if l.next.NoMore? then [] else WordsOf(LineYield(l.next.line))
  {
    var front := PipeYield(l.pipe) + Amps(l.amps);
    NoWordsInAmps(l.amps);
    WordsOfBoth(PipeYield(l.pipe), Amps(l.amps));
    if l.next.Then? {
      assert LineYield(l) == front + [Semi] + LineYield(l.next.line);
      WordsAround(front, Semi, LineYield(l.next.line));
    } else {
      assert LineYield(l) == front;
    }
  }

  /** The command of a tree has exactly the words of the tokens, each as often. */
  lemma {:induction false} LineWords(l: LineTree)
    ensures multiset(Toks(LineCmd(l))) == multiset(WordsOf(LineYield(l)))
    decreases l
  {
    hide WordsOf, LineYield, PipeYield;
    PipeWords(l.pipe);
    BackedToks(PipeCmd(l.pipe), l.amps);
    LineYieldWords(l);
    if l.next.Then? {
      LineWords(l.next.line);
    }
  }

  /** The words of the command that a line means are the words of the line. */
  lemma {:induction false} WordsOfMeaning(t: seq<char>, l: LineTree, w: Tok)
    requires Line(t) && LineYield(l) == Tokens(t, 0)
    ensures w in Toks(LineCmd(l)) <==> IsWord(t, w)
    ensures multiset(Toks(LineCmd(l))) == multiset(WordsOf(Tokens(t, 0)))
  {
    LineWords(l);
    assert w in multiset(Toks(LineCmd(l))) <==> w in multiset(WordsOf(Tokens(t, 0)));
    InWordsOf(Tokens(t, 0), w);
    TokensFindWords(t, 0, w);
  }

  // --- Instances ----------------------------------------------------------------------------

  lemma {:induction false} OnlyWords(ts: seq<Token>, argc: nat, max: nat)
    requires forall k :: 0 <= k < |ts| ==> ts[k].Word?
    ensures ItemsFrom(ts, argc, max).Ok? <==> ts == [] || argc + |ts| < max
    ensures ItemsFrom(ts, argc, max).Ok? ==> ItemsFrom(ts, argc, max).rest == []
  {
    if ts != [] {
      OnlyWords(ts[1..], argc + 1, max);
    }
  }

  /** A line of words and blanks has a meaning exactly if there are fewer than MAXARGS. */
  lemma {:induction false} PlainLines(t: seq<char>)
    requires Line(t) && forall k :: 0 <= k < |Tokens(t, 0)| ==> Tokens(t, 0)[k].Word?
    ensures (exists l :: LineYield(l) == Tokens(t, 0) && LineFits(l, MAXARGS)) <==> |Tokens(t, 0)| < MAXARGS
  {
    var ts := Tokens(t, 0);
    OnlyWords(ts, 0, MAXARGS);
    if |ts| < MAXARGS {
      var items := ItemsFrom(ts, 0, MAXARGS).tree;
      assert ExecFrom(ts, MAXARGS) == Ok(Simple(items), []);
      assert CountAmps([]) == 0;
      FoundIff(ts, MAXARGS, LineTree(Last(Simple(items)), 0, NoMore));
    } else {
      assert PipeFrom(ts, MAXARGS) == Panic;
      forall l
        ensures !(LineYield(l) == ts && LineFits(l, MAXARGS))
      {
        FoundIff(ts, MAXARGS, l);
      }
    }
  }
}
