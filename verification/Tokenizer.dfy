/** client.c, parse_args: splitting a command line into arguments, with single and double quotes. */
module Tokenizer {
  import opened Bytes

  const ARG_MAX: nat := 1024
  const SINGLE: Byte := 39
  const DOUBLE: Byte := 34

  type Text = seq<Byte>

  datatype QuoteState = INIT | RECEIVE_SINGLE | AMONG_SINGLE | RECEIVE_DOUBLE | AMONG_DOUBLE

  /** The state, the argument being gathered and the arguments already in the list. */
  datatype Lexer = Lexer(state: QuoteState, arg: Text, args: seq<Text>)

  /** Fault: the terminating zero is written one past the end of the 1024-byte buffer. */
  datatype Outcome = Parsed(args: seq<Text>) | Failed | Fault

  /** isspace in the C locale */
  predicate IsSpace(c: Byte) { c == 32 || 9 <= c <= 13 }

  predicate IsQuote(c: Byte) { c == SINGLE || c == DOUBLE }

  const START := Lexer(INIT, [], [])

  // ---- what one character does, and what the end of the line does ----------------------

  function Step(l: Lexer, c: Byte): Option<Lexer> {
    if |l.arg| >= ARG_MAX then None
    else if IsSpace(c) then
      if l.state.INIT? then
        Some(if l.arg == [] then l else Lexer(INIT, [], l.args + [l.arg]))
      else Some(l.(arg := l.arg + [c]))
    else if c == SINGLE then
      if l.state.INIT? then Some(l.(state := RECEIVE_SINGLE))
      else if l.state.RECEIVE_SINGLE? || l.state.AMONG_SINGLE? then Some(l.(state := INIT))
      else None
    else if c == DOUBLE then
      if l.state.INIT? then Some(l.(state := RECEIVE_DOUBLE))
      else if l.state.RECEIVE_DOUBLE? || l.state.AMONG_DOUBLE? then Some(l.(state := INIT))
      else None
    else
      var state :=
        if l.state.RECEIVE_SINGLE? then AMONG_SINGLE
        else if l.state.RECEIVE_DOUBLE? then AMONG_DOUBLE
        else l.state;
      Some(l.(state := state, arg := l.arg + [c]))
  }

  function Scan(l: Lexer, s: Text): Option<Lexer>
    decreases |s|
  {
    if s == [] then Some(l)
    else match Step(l, s[0])
      case None => None
      case Some(m) => Scan(m, s[1..])
  }

  function Finish(l: Lexer): Outcome {
    if l.state.INIT? && l.arg != [] then
      if |l.arg| >= ARG_MAX then Fault else Parsed(l.args + [l.arg])
    else Parsed(l.args)
  }

  function Parse(s: Text): Outcome {
    match Scan(START, s)
    case None => Failed
    case Some(l) => Finish(l)
  }

  lemma {:induction false} ScanConcat(l: Lexer, a: Text, b: Text)
    ensures Scan(l, a + b) == match Scan(l, a) case None => None case Some(m) => Scan(m, b)
    decreases |a|
  {
    if a == [] {
      assert a + b == b;
    } else {
      assert (a + b)[0] == a[0] && (a + b)[1..] == a[1..] + b;
      var next := Step(l, a[0]);
      if next.Some? {
        ScanConcat(next.value, a[1..], b);
      }
    }
  }

  lemma ScanOne(l: Lexer, c: Byte)
    ensures Scan(l, [c]) == Step(l, c)
  {
    assert [c][1..] == [];
  }

  // ---- the loop ------------------------------------------------------------------------

  method ParseArgs(buf: Text) returns (r: Outcome)
    ensures r == Parse(buf)
  {
    var arg := new Byte[ARG_MAX];
    var argLen, state, i := 0, INIT, 0;
    var args: seq<Text> := [];
    while i < |buf|
      invariant 0 <= i <= |buf| && 0 <= argLen <= ARG_MAX
      invariant Scan(START, buf[..i]) == Some(Lexer(state, arg[..argLen], args))
    {
      ghost var l := Lexer(state, arg[..argLen], args);
      var c := buf[i];
      assert buf[..i + 1] == buf[..i] + [c] && buf == buf[..i + 1] + buf[i + 1..];
      ScanConcat(START, buf[..i], [c]);
      ScanOne(l, c);
      ScanConcat(START, buf[..i + 1], buf[i + 1..]);
      i := i + 1;
      if argLen >= ARG_MAX {
        return Failed;
      }
      if IsSpace(c) {
        if state == INIT {
          if argLen != 0 {
            args := args + [arg[..argLen]];
            argLen := 0;
          }
        } else {
          arg[argLen] := c;
          argLen := argLen + 1;
          assert arg[..argLen] == l.arg + [c];
        }
        continue;
      }
      if c == SINGLE {
        match state {
          case INIT => state := RECEIVE_SINGLE;
          case RECEIVE_SINGLE => state := INIT;
          case AMONG_SINGLE => state := INIT;
          case _ => return Failed;
        }
        continue;
      }
      if c == DOUBLE {
        match state {
          case INIT => state := RECEIVE_DOUBLE;
          case RECEIVE_DOUBLE => state := INIT;
          case AMONG_DOUBLE => state := INIT;
          case _ => return Failed;
        }
        continue;
      }
      arg[argLen] := c;
      argLen := argLen + 1;
      assert arg[..argLen] == l.arg + [c];
      match state {
        case RECEIVE_SINGLE => state := AMONG_SINGLE;
        case RECEIVE_DOUBLE => state := AMONG_DOUBLE;
        case _ =>
      }
    }
    assert buf[..i] == buf;
    if state == INIT && argLen != 0 {
      if argLen >= ARG_MAX {
        return Fault;
      }
      args := args + [arg[..argLen]];
    }
    return Parsed(args);
  }

  // ---- command lines as they are written -----------------------------------------------

  /** A word is written in pieces, each bare or in quotes of one kind. */
  datatype Piece = Bare(text: Text) | Quoted(double: bool, text: Text)

  predicate PieceOk(p: Piece) {
    && (forall i | 0 <= i < |p.text| :: !IsQuote(p.text[i]))
    && (p.Bare? ==> forall i | 0 <= i < |p.text| :: !IsSpace(p.text[i]))
  }

  function Mark(double: bool): Byte { if double then DOUBLE else SINGLE }

  function Show(p: Piece): Text {
    match p
    case Bare(text) => text
    case Quoted(double, text) => [Mark(double)] + text + [Mark(double)]
  }

  function ShowWord(w: seq<Piece>): Text {
    if w == [] then [] else Show(w[0]) + ShowWord(w[1..])
  }

  function Meant(w: seq<Piece>): Text {
    if w == [] then [] else w[0].text + Meant(w[1..])
  }

  predicate PiecesOk(w: seq<Piece>) { w == [] || (PieceOk(w[0]) && PiecesOk(w[1..])) }

  predicate Long(w: seq<Piece>) { |Meant(w)| >= ARG_MAX }

  /** The last piece of the word that is written at all is bare: the word ends in a character it means. */
  predicate EndsBare(w: seq<Piece>) {
    w != [] && if ShowWord(w[1..]) == [] then w[0].Bare? && w[0].text != [] else EndsBare(w[1..])
  }

  predicate AllSpace(s: Text) { forall i | 0 <= i < |s| :: IsSpace(s[i]) }

  /** White space after every word; only the last word may do without. */
  predicate LineOk(words: seq<seq<Piece>>, gaps: seq<Text>) {
    && |gaps| == |words|
    && (forall i | 0 <= i < |words| :: PiecesOk(words[i]) && AllSpace(gaps[i]))
    && (forall i | 0 <= i < |gaps| - 1 :: gaps[i] != [])
  }

  function ShowLine(words: seq<seq<Piece>>, gaps: seq<Text>): Text
    requires |gaps| == |words|
  {
    if words == [] then [] else ShowWord(words[0]) + gaps[0] + ShowLine(words[1..], gaps[1..])
  }

  /** One word as an argument; a word of nothing but empty quotes is none. */
  function AsArgument(text: Text): seq<Text> { if text == [] then [] else [text] }

  function MeantAll(words: seq<seq<Piece>>): seq<Text> {
    if words == [] then [] else AsArgument(Meant(words[0])) + MeantAll(words[1..])
  }

  predicate AnyLong(words: seq<seq<Piece>>) { words != [] && (Long(words[0]) || AnyLong(words[1..])) }

  // ---- reading them back ---------------------------------------------------------------

  /** Text goes into the argument character by character, up to 1024 characters in all. */
  lemma {:induction false} ScanText(l: Lexer, text: Text) returns (m: QuoteState)
    requires |l.arg| <= ARG_MAX && forall i | 0 <= i < |text| :: !IsQuote(text[i])
    requires l.state.INIT? ==> forall i | 0 <= i < |text| :: !IsSpace(text[i])
    ensures Scan(l, text) ==
      if text == [] || |l.arg| + |text| <= ARG_MAX then Some(Lexer(m, l.arg + text, l.args)) else None
    ensures l.state.INIT? <==> m.INIT?
    ensures l.state.RECEIVE_SINGLE? || l.state.AMONG_SINGLE? <==> m.RECEIVE_SINGLE? || m.AMONG_SINGLE?
    decreases |text|
  {
    if text == [] {
      m := l.state;
      assert l.arg + [] == l.arg;
    } else if |l.arg| >= ARG_MAX {
      m := l.state;
    } else {
      var next := Step(l, text[0]).value;
      m := ScanText(next, text[1..]);
      Joined(l.arg, [text[0]], text[1..]);
      assert [text[0]] + text[1..] == text;
    }
  }

  lemma Joined<T>(a: seq<T>, b: seq<T>, c: seq<T>)
    ensures a + (b + c) == a + b + c
  {
  }

  /** How far a piece gets when n characters have been gathered before it. */
  predicate PieceFits(n: nat, p: Piece) {
    if p.Bare? then p.text == [] || n + |p.text| <= ARG_MAX else n + |p.text| < ARG_MAX
  }

  lemma ScanPiece(l: Lexer, p: Piece)
    requires l.state.INIT? && PieceOk(p) && |l.arg| <= ARG_MAX
    ensures Scan(l, Show(p)) == if PieceFits(|l.arg|, p) then Some(l.(arg := l.arg + p.text)) else None
  {
    if p.Bare? {
      var m := ScanText(l, p.text);
    } else {
      ScanQuoted(l, p.double, p.text);
    }
  }

  lemma ScanQuoted(l: Lexer, double: bool, text: Text)
    requires l.state.INIT? && PieceOk(Quoted(double, text)) && |l.arg| <= ARG_MAX
    ensures Scan(l, Show(Quoted(double, text))) ==
      if |l.arg| + |text| < ARG_MAX then Some(l.(arg := l.arg + text)) else None
  {
    var q := Mark(double);
    ScanConcat(l, [q] + text, [q]);
    var m := ScanOpen(l, double, text);
    if |l.arg| < ARG_MAX && |l.arg| + |text| <= ARG_MAX {
      ScanOne(Lexer(m, l.arg + text, l.args), q);
    }
  }

  /** An opening quote and the text behind it. */
  lemma ScanOpen(l: Lexer, double: bool, text: Text) returns (m: QuoteState)
    requires l.state.INIT? && PieceOk(Quoted(double, text)) && |l.arg| <= ARG_MAX
    ensures Scan(l, [Mark(double)] + text) ==
      if |l.arg| < ARG_MAX && |l.arg| + |text| <= ARG_MAX then Some(Lexer(m, l.arg + text, l.args)) else None
    ensures if double then m.RECEIVE_DOUBLE? || m.AMONG_DOUBLE? else m.RECEIVE_SINGLE? || m.AMONG_SINGLE?
  {
    var q := Mark(double);
    var inside := l.(state := if double then RECEIVE_DOUBLE else RECEIVE_SINGLE);
    ScanOne(l, q);
    ScanConcat(l, [q], text);
    m := ScanTextKind(inside, text, double);
  }

  lemma {:induction false} ScanTextKind(l: Lexer, text: Text, double: bool) returns (m: QuoteState)
    requires |l.arg| <= ARG_MAX && forall i | 0 <= i < |text| :: !IsQuote(text[i])
    requires if double then l.state.RECEIVE_DOUBLE? || l.state.AMONG_DOUBLE?
             else l.state.RECEIVE_SINGLE? || l.state.AMONG_SINGLE?
    ensures Scan(l, text) ==
      if text == [] || |l.arg| + |text| <= ARG_MAX then Some(Lexer(m, l.arg + text, l.args)) else None
    ensures if double then m.RECEIVE_DOUBLE? || m.AMONG_DOUBLE? else m.RECEIVE_SINGLE? || m.AMONG_SINGLE?
  {
    m := ScanText(l, text);
  }

  /** A word gets through if all that comes before its last character finds room. */
  predicate Survives(n: nat, w: seq<Piece>) {
    ShowWord(w) == [] || n + |Meant(w)| < ARG_MAX || (n + |Meant(w)| == ARG_MAX && EndsBare(w))
  }

  lemma {:induction false} ShownNothing(w: seq<Piece>)
    ensures ShowWord(w) == [] ==> Meant(w) == []
    ensures EndsBare(w) ==> Meant(w) != []
  {
    if w != [] {
      ShownNothing(w[1..]);
    }
  }

  lemma SurvivesFirst(n: nat, w: seq<Piece>)
    requires w != []
    ensures Survives(n, w) <==> PieceFits(n, w[0]) && Survives(n + |w[0].text|, w[1..])
  {
    ShownNothing(w[1..]);
  }

  lemma {:induction false} ScanWord(l: Lexer, w: seq<Piece>)
    requires l.state.INIT? && PiecesOk(w) && |l.arg| <= ARG_MAX
    ensures Scan(l, ShowWord(w)) == if Survives(|l.arg|, w) then Some(l.(arg := l.arg + Meant(w))) else None
    decreases |w|
  {
    if w == [] {
      assert l.arg + [] == l.arg;
    } else {
      var m, rest := l.(arg := l.arg + w[0].text), w[1..];
      ScanPiece(l, w[0]);
      SurvivesFirst(|l.arg|, w);
      ScanConcat(l, Show(w[0]), ShowWord(rest));
      if PieceFits(|l.arg|, w[0]) {
        Joined(l.arg, w[0].text, Meant(rest));
        ScanWord(m, rest);
      }
    }
  }

  /** A gap closes the argument before it, if there is one and it is not too long. */
  lemma {:induction false} ScanGap(l: Lexer, gap: Text)
    requires l.state.INIT? && AllSpace(gap)
    ensures Scan(l, gap) ==
      if gap == [] then Some(l)
      else if |l.arg| >= ARG_MAX then None
      else Some(Lexer(INIT, [], l.args + AsArgument(l.arg)))
    decreases |gap|
  {
    if gap != [] && |l.arg| < ARG_MAX {
      var next := Step(l, gap[0]).value;
      ScanGap(next, gap[1..]);
      assert l.args + [] == l.args;
      assert next.args + [] == next.args;
    }
  }

  lemma ScanWordAndGap(args: seq<Text>, w: seq<Piece>, gap: Text)
    requires PiecesOk(w) && AllSpace(gap)
    ensures Scan(Lexer(INIT, [], args), ShowWord(w) + gap) ==
      if !Survives(0, w) || (gap != [] && Long(w)) then None
      else Some(if gap == [] then Lexer(INIT, Meant(w), args) else Lexer(INIT, [], args + AsArgument(Meant(w))))
  {
    var l := Lexer(INIT, [], args);
    ScanWord(l, w);
    assert [] + Meant(w) == Meant(w);
    ScanConcat(l, ShowWord(w), gap);
    ScanGap(Lexer(INIT, Meant(w), args), gap);
  }

  lemma LineTail(words: seq<seq<Piece>>, gaps: seq<Text>)
    requires LineOk(words, gaps) && words != []
    ensures LineOk(words[1..], gaps[1..]) && PiecesOk(words[0]) && AllSpace(gaps[0])
    ensures gaps[0] == [] ==> words[1..] == []
  {
  }

  /** Where the parser stands after the line: a last word without a gap is still being gathered. */
  function EndOfLine(args: seq<Text>, words: seq<seq<Piece>>, gaps: seq<Text>): Option<Lexer>
    requires |gaps| == |words|
    decreases |words|
  {
    if words == [] then Some(Lexer(INIT, [], args))
    else if !Survives(0, words[0]) then None
    else if gaps[0] == [] then Some(Lexer(INIT, Meant(words[0]), args))
    else if Long(words[0]) then None
    else EndOfLine(args + AsArgument(Meant(words[0])), words[1..], gaps[1..])
  }

  lemma {:induction false} ScanLine(args: seq<Text>, words: seq<seq<Piece>>, gaps: seq<Text>)
    requires LineOk(words, gaps)
    ensures Scan(Lexer(INIT, [], args), ShowLine(words, gaps)) == EndOfLine(args, words, gaps)
    decreases |words|
  {
    if words != [] {
      LineTail(words, gaps);
      ScanWordAndGap(args, words[0], gaps[0]);
      var l, first := Lexer(INIT, [], args), ShowWord(words[0]) + gaps[0];
      ScanConcat(l, first, ShowLine(words[1..], gaps[1..]));
      if gaps[0] != [] {
        ScanLine(args + AsArgument(Meant(words[0])), words[1..], gaps[1..]);
      }
    }
  }

  // ---- what becomes of a line, whatever its words and their lengths --------------------

  /** The words that are closed by a gap, and what is still pending behind the last one. */
  function Closed(words: seq<seq<Piece>>, gaps: seq<Text>): seq<seq<Piece>>
    requires |gaps| == |words|
  {
    if words == [] || gaps[|gaps| - 1] != [] then words else words[..|words| - 1]
  }

  function Pending(words: seq<seq<Piece>>, gaps: seq<Text>): seq<Piece>
    requires |gaps| == |words|
  {
    if words == [] || gaps[|gaps| - 1] != [] then [] else words[|words| - 1]
  }

  lemma {:induction false} EndIs(args: seq<Text>, words: seq<seq<Piece>>, gaps: seq<Text>)
    requires LineOk(words, gaps)
    ensures EndOfLine(args, words, gaps) ==
      if AnyLong(Closed(words, gaps)) || !Survives(0, Pending(words, gaps)) then None
      else Some(Lexer(INIT, Meant(Pending(words, gaps)), args + MeantAll(Closed(words, gaps))))
    decreases |words|
  {
    if words == [] {
      assert args + [] == args;
    } else {
      LineTail(words, gaps);
      if gaps[0] == [] {
        assert Closed(words, gaps) == [] && Pending(words, gaps) == words[0];
        assert args + [] == args;
      } else {
        var more := args + AsArgument(Meant(words[0]));
        EndIs(more, words[1..], gaps[1..]);
        ClosedFirst(words, gaps);
        ShownNothing(words[0]);
        Joined(args, AsArgument(Meant(words[0])), MeantAll(Closed(words[1..], gaps[1..])));
      }
    }
  }

  lemma ClosedFirst(words: seq<seq<Piece>>, gaps: seq<Text>)
    requires |gaps| == |words| && words != [] && gaps[0] != []
    ensures Closed(words, gaps) == [words[0]] + Closed(words[1..], gaps[1..])
    ensures Pending(words, gaps) == Pending(words[1..], gaps[1..])
    ensures MeantAll(Closed(words, gaps)) == AsArgument(Meant(words[0])) + MeantAll(Closed(words[1..], gaps[1..]))
    ensures AnyLong(Closed(words, gaps)) <==> Long(words[0]) || AnyLong(Closed(words[1..], gaps[1..]))
  {
    var c := Closed(words, gaps);
    assert c == [words[0]] + Closed(words[1..], gaps[1..]);
    assert c[1..] == Closed(words[1..], gaps[1..]);
  }

  /** All the arguments of a line whose quotes are closed. */
  function Arguments(words: seq<seq<Piece>>, gaps: seq<Text>): seq<Text>
    requires |gaps| == |words|
  {
    MeantAll(Closed(words, gaps)) + AsArgument(Meant(Pending(words, gaps)))
  }

  lemma {:induction false} ArgumentsAre(words: seq<seq<Piece>>, gaps: seq<Text>)
    requires LineOk(words, gaps)
    ensures Arguments(words, gaps) == MeantAll(words)
    ensures AnyLong(words) <==> AnyLong(Closed(words, gaps)) || Long(Pending(words, gaps))
    decreases |words|
  {
    if words != [] {
      LineTail(words, gaps);
      if gaps[0] == [] {
        assert Closed(words, gaps) == [] && Pending(words, gaps) == words[0];
        assert MeantAll(words) == AsArgument(Meant(words[0]));
      } else {
        ArgumentsAre(words[1..], gaps[1..]);
        ClosedFirst(words, gaps);
        Joined(AsArgument(Meant(words[0])), MeantAll(Closed(words[1..], gaps[1..])),
               AsArgument(Meant(Pending(words, gaps))));
      }
    }
  }

  /**
   * Any line of words and gaps. It is read as it was meant while no word reaches 1024 characters;
   * the terminating zero falls outside the buffer exactly when only the last word does, with
   * 1024 characters of which the last is bare and ends the line; any other long word refuses the line.
   */
  lemma LengthLimit(lead: Text, words: seq<seq<Piece>>, gaps: seq<Text>)
    requires AllSpace(lead) && LineOk(words, gaps)
    ensures Parse(lead + ShowLine(words, gaps)) ==
      if !AnyLong(words) then Parsed(MeantAll(words))
      else if !AnyLong(Closed(words, gaps)) && |Meant(Pending(words, gaps))| == ARG_MAX && EndsBare(Pending(words, gaps))
      then Fault
      else Failed
  {
    ScanGap(START, lead);
    ScanConcat(START, lead, ShowLine(words, gaps));
    assert START.args + [] == [];
    ScanLine([], words, gaps);
    EndIs([], words, gaps);
    ArgumentsAre(words, gaps);
    ShownNothing(Pending(words, gaps));
    assert [] + MeantAll(Closed(words, gaps)) == MeantAll(Closed(words, gaps));
    assert MeantAll(Closed(words, gaps)) + [] == MeantAll(Closed(words, gaps));
  }

  /** Any list of arguments, written bare, quoted or in pieces of both, is read back as it was meant. */
  lemma RoundTrip(lead: Text, words: seq<seq<Piece>>, gaps: seq<Text>)
    requires AllSpace(lead) && LineOk(words, gaps) && !AnyLong(words)
    ensures Parse(lead + ShowLine(words, gaps)) == Parsed(MeantAll(words))
  {
    LengthLimit(lead, words, gaps);
  }

  /**
   * A line that ends inside quotes: what was gathered for the last argument, before the quote and
   * behind it, is dropped; the line is refused if a word is too long or the quoted text finds no room.
   */
  lemma UnclosedQuote(lead: Text, words: seq<seq<Piece>>, gaps: seq<Text>, double: bool, text: Text)
    requires AllSpace(lead) && LineOk(words, gaps) && PieceOk(Quoted(double, text))
    ensures Parse(lead + ShowLine(words, gaps) + ([Mark(double)] + text)) ==
      if AnyLong(words) || |Meant(Pending(words, gaps))| + |text| > ARG_MAX then Failed
      else Parsed(MeantAll(Closed(words, gaps)))
  {
    var line := ShowLine(words, gaps);
    ScanGap(START, lead);
    assert START.args + [] == [];
    ScanConcat(START, lead, line);
    ScanConcat(START, lead + line, [Mark(double)] + text);
    ScanLine([], words, gaps);
    EndIs([], words, gaps);
    ArgumentsAre(words, gaps);
    ShownNothing(Pending(words, gaps));
    assert [] + MeantAll(Closed(words, gaps)) == MeantAll(Closed(words, gaps));
    var pending := Meant(Pending(words, gaps));
    if |pending| <= ARG_MAX {
      var m := ScanOpen(Lexer(INIT, pending, MeantAll(Closed(words, gaps))), double, text);
    }
  }

  /** So among lines that are accepted, an argument is lost if and only if a quote is open around or behind it. */
  lemma DroppedExactly(lead: Text, words: seq<seq<Piece>>, gaps: seq<Text>, open: Option<(bool, Text)>)
    requires AllSpace(lead) && LineOk(words, gaps) && (open.Some? ==> PieceOk(Quoted(open.value.0, open.value.1)))
    ensures
      var behind := if open.None? then [] else [Mark(open.value.0)] + open.value.1;
      var last := Meant(Pending(words, gaps)) + (if open.None? then [] else open.value.1);
      var r := Parse(lead + ShowLine(words, gaps) + behind);
      r.Parsed? ==>
        (r.args == MeantAll(Closed(words, gaps)) + AsArgument(last) <==> open.None? || last == [])
  {
    var line := lead + ShowLine(words, gaps);
    var done, pending := MeantAll(Closed(words, gaps)), Meant(Pending(words, gaps));
    if open.None? {
      assert line + [] == line && pending + [] == pending;
      LengthLimit(lead, words, gaps);
      ArgumentsAre(words, gaps);
    } else {
      UnclosedQuote(lead, words, gaps, open.value.0, open.value.1);
      assert done + [] == done;
      assert |done + [pending + open.value.1]| == |done| + 1;
    }
  }

  /** Quotes of one kind do not stand inside the other. */
  lemma MixedQuotes(lead: Text, words: seq<seq<Piece>>, gaps: seq<Text>, double: bool, text: Text, rest: Text)
    requires AllSpace(lead) && LineOk(words, gaps) && PieceOk(Quoted(double, text))
    ensures Parse(lead + ShowLine(words, gaps) + ([Mark(double)] + text) + ([Mark(!double)] + rest)) == Failed
  {
    var line, open := lead + ShowLine(words, gaps), [Mark(double)] + text;
    ScanGap(START, lead);
    assert START.args + [] == [];
    ScanConcat(START, lead, ShowLine(words, gaps));
    ScanLine([], words, gaps);
    EndIs([], words, gaps);
    ShownNothing(Pending(words, gaps));
    ScanConcat(START, line, open);
    ScanConcat(START, line + open, [Mark(!double)] + rest);
    var l := Scan(START, line);
    if l.Some? {
      ScanMixed(l.value, double, text, rest);
    }
  }

  lemma ScanMixed(l: Lexer, double: bool, text: Text, rest: Text)
    requires l.state.INIT? && PieceOk(Quoted(double, text)) && |l.arg| <= ARG_MAX
    ensures
      var m := Scan(l, [Mark(double)] + text);
      m.Some? ==> Scan(m.value, [Mark(!double)] + rest).None?
  {
    var m := ScanOpen(l, double, text);
  }

  // ---- there are no other lines --------------------------------------------------------

  /** How a line ends: outside quotes, inside them, or with the other kind of quote inside them and anything behind. */
  datatype Ending = Shut | Open(double: bool, text: Text) | Mixed(double: bool, text: Text, rest: Text)

  predicate EndingOk(e: Ending) { e.Shut? || PieceOk(Quoted(e.double, e.text)) }

  function ShowEnding(e: Ending): Text {
    match e
    case Shut => []
    case Open(double, text) => [Mark(double)] + text
    case Mixed(double, text, rest) => [Mark(double)] + text + ([Mark(!double)] + rest)
  }

  predicate Written(s: Text, lead: Text, words: seq<seq<Piece>>, gaps: seq<Text>, e: Ending) {
    AllSpace(lead) && LineOk(words, gaps) && EndingOk(e) && s == lead + ShowLine(words, gaps) + ShowEnding(e)
  }

  /** Every line is white space, words and gaps, and one of these endings. */
  lemma {:induction false} EveryLine(s: Text)
    returns (lead: Text, words: seq<seq<Piece>>, gaps: seq<Text>, e: Ending)
    ensures Written(s, lead, words, gaps, e)
    decreases |s|
  {
    lead, words, gaps, e := [], [], [], Shut;
    if s == [] {
    } else if IsSpace(s[0]) {
      lead, words, gaps, e := EveryLine(s[1..]);
      MoreLead(s, lead, words, gaps, e);
      lead := [s[0]] + lead;
    } else {
      var p: Piece, rest: Text;
      p, rest, e := FirstPiece(s);
      if e.Shut? {
        lead, words, gaps, e := EveryLine(rest);
        lead, words, gaps := WithPiece(p, rest, lead, words, gaps, e);
      }
    }
  }

  lemma MoreLead(s: Text, lead: Text, words: seq<seq<Piece>>, gaps: seq<Text>, e: Ending)
    requires s != [] && IsSpace(s[0]) && Written(s[1..], lead, words, gaps, e)
    ensures Written(s, [s[0]] + lead, words, gaps, e)
  {
    Joined([s[0]], lead, ShowLine(words, gaps));
    Joined([s[0]], lead + ShowLine(words, gaps), ShowEnding(e));
  }

  /** A line that begins with no space begins with a piece, unless its first quote ends it. */
  lemma FirstPiece(s: Text) returns (p: Piece, rest: Text, e: Ending)
    requires s != [] && !IsSpace(s[0])
    ensures PieceOk(p) && EndingOk(e)
    ensures if e.Shut? then s == Show(p) + rest && |rest| < |s| else s == ShowEnding(e)
  {
    if IsQuote(s[0]) {
      p, rest, e := FirstQuotes(s[0] == DOUBLE, s[1..]);
      assert s == [s[0]] + s[1..];
    } else {
      p, rest, e := Bare(s[..1]), s[1..], Shut;
    }
  }

  /** What begins behind an opening quote. */
  lemma FirstQuotes(double: bool, s: Text) returns (p: Piece, rest: Text, e: Ending)
    ensures PieceOk(p) && EndingOk(e)
    ensures [Mark(double)] + s == if e.Shut? then Show(p) + rest else ShowEnding(e)
    ensures |rest| <= |s|
  {
    var q, n := Mark(double), Unquoted(s);
    var text := s[..n];
    p, rest, e := Quoted(double, text), [], Shut;
    if n == |s| {
      e := Open(double, text);
    } else {
      var closing := [s[n]];
      rest := s[n + 1..];
      assert s == text + (closing + rest);
      Joined([q], text, closing + rest);
      if s[n] == q {
        Joined([q] + text, closing, rest);
      } else {
        e := Mixed(double, text, rest);
      }
    }
  }

  /** How many characters stand before the first quote. */
  function Unquoted(s: Text): (n: nat)
    ensures n <= |s| && (n < |s| ==> IsQuote(s[n]))
    ensures forall i | 0 <= i < n :: !IsQuote(s[i])
  {
    if s == [] || IsQuote(s[0]) then 0 else 1 + Unquoted(s[1..])
  }

  /** One more piece at the beginning: a word of its own if white space follows. */
  lemma WithPiece(p: Piece, rest: Text, lead: Text, words: seq<seq<Piece>>, gaps: seq<Text>, e: Ending)
    returns (lead': Text, words': seq<seq<Piece>>, gaps': seq<Text>)
    requires PieceOk(p) && Written(rest, lead, words, gaps, e)
    ensures Written(Show(p) + rest, lead', words', gaps', e)
  {
    words', gaps' := PieceBefore(p, lead, words, gaps);
    lead' := [];
    assert [] + ShowLine(words', gaps') == ShowLine(words', gaps');
    Joined(Show(p), lead + ShowLine(words, gaps), ShowEnding(e));
  }

  lemma PieceBefore(p: Piece, lead: Text, words: seq<seq<Piece>>, gaps: seq<Text>)
    returns (words': seq<seq<Piece>>, gaps': seq<Text>)
    requires PieceOk(p) && AllSpace(lead) && LineOk(words, gaps)
    ensures LineOk(words', gaps')
    ensures ShowLine(words', gaps') == Show(p) + (lead + ShowLine(words, gaps))
  {
    if lead != [] || words == [] {
      words', gaps' := [[p]] + words, [lead] + gaps;
      NewWord(p, lead, words, gaps);
    } else {
      words', gaps' := [[p] + words[0]] + words[1..], gaps;
      SameWord(p, words, gaps);
      assert [] + ShowLine(words, gaps) == ShowLine(words, gaps);
    }
  }

  lemma NewWord(p: Piece, gap: Text, words: seq<seq<Piece>>, gaps: seq<Text>)
    requires PieceOk(p) && AllSpace(gap) && LineOk(words, gaps) && (gap != [] || words == [])
    ensures LineOk([[p]] + words, [gap] + gaps)
    ensures ShowLine([[p]] + words, [gap] + gaps) == Show(p) + (gap + ShowLine(words, gaps))
  {
    assert ([[p]] + words)[1..] == words && ([gap] + gaps)[1..] == gaps;
    assert [p][1..] == [];
    assert ShowWord([p]) == Show(p);
    Joined(Show(p), gap, ShowLine(words, gaps));
  }

  lemma SameWord(p: Piece, words: seq<seq<Piece>>, gaps: seq<Text>)
    requires PieceOk(p) && LineOk(words, gaps) && words != []
    ensures LineOk([[p] + words[0]] + words[1..], gaps)
    ensures ShowLine([[p] + words[0]] + words[1..], gaps) == Show(p) + ShowLine(words, gaps)
  {
    var word, rest := [p] + words[0], words[1..];
    assert word[1..] == words[0] && ([word] + rest)[1..] == rest;
    Joined(Show(p), ShowWord(words[0]), gaps[0]);
    Joined(Show(p), ShowWord(words[0]) + gaps[0], ShowLine(rest, gaps[1..]));
  }
}
