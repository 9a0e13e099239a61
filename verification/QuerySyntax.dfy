/**
 The syntax of context queries (contextquery.c): parts between slashes, each one a wildcard or
 properties between commas.  The loops of the parser are proved against functions on the rest of
 the text, and those accept exactly the texts of a grammar, with the query that each one stands for.
 */
module QuerySyntax {
  import opened ContextQuery
  import opened Wrappers

  /** The next character, NUL at the end. */
  function Head(s: string): char {
    if s == "" then '\0' else s[0]
  }

  /** What ends a part, a property or a name. */
  predicate Ends(c: char) {
    c == '/' || c == '=' || c == ',' || c == '\0'
  }

  predicate IsDigit(c: char) {
    '0' <= c <= '9'
  }

  predicate IsSymbol(c: char) {
    c == '_' || IsDigit(c) || 'a' <= c <= 'z' || 'A' <= c <= 'Z'
  }

  /** The classes of characters, by their codes. */
  lemma Characters(c: char)
    ensures IsDigit(c) <==> 48 <= c as int <= 57
    ensures IsSymbol(c) <==> c as int == 95 || 48 <= c as int <= 57 || 65 <= c as int <= 90 || 97 <= c as int <= 122
    ensures Ends(c) <==> c as int == 0 || c as int == 44 || c as int == 47 || c as int == 61
  {
  }

  /** A piece of text and what follows it, or a syntax error. */
  datatype Token = Token(text: string, rest: string) | Bad

  function Prepend(c: char, t: Token): Token {
    if t.Bad? then t else Token([c] + t.text, t.rest)
  }

  /** Digits up to a comma, a slash or the end. */
  function Number(s: string): Token {
    if s != "" && IsDigit(s[0]) then Prepend(s[0], Number(s[1..]))
    else if Head(s) == ',' || Head(s) == '/' || Head(s) == '\0' then Token("", s) else Bad
  }

  /** Letters, digits and underscores up to what can end a name. */
  function Symbol(s: string): Token {
    if s != "" && IsSymbol(s[0]) then Prepend(s[0], Symbol(s[1..]))
    else if Ends(Head(s)) then Token("", s) else Bad
  }

  /** The inside of a quoted string, with backslash before quotes and backslashes only. */
  function Quoted(s: string): Token {
    if Head(s) == '\0' then Bad
    else if s[0] == '"' then Token("", s[1..])
    else if s[0] != '\\' then Prepend(s[0], Quoted(s[1..]))
    else if Head(s[1..]) == '\\' || Head(s[1..]) == '"' then Prepend(s[1], Quoted(s[2..]))
    else Bad
  }

  /** One or two asterisks, which must be all of a part that remains. */
  function Wildcard(s: string): Token
    requires s != ""
  {
    var n := if Head(s[1..]) == '*' then 2 else 1;
    if Head(s[n..]) == '\0' || Head(s[n..]) == '/' then Token(s[..n], s[n..]) else Bad
  }

  function Name(s: string): Token {
    if Head(s) == '"' then Quoted(s[1..]) else Symbol(s)
  }

  function Value(s: string): Token {
    if IsDigit(Head(s)) then Number(s) else Name(s)
  }

  /** A parsed property, or an error. */
  datatype Parsed = Parsed(attr: Attribute, rest: string) | Wrong

  function Property(s: string): Parsed {
    var n := Name(s);
    if n.Bad? then Wrong
    else if Head(n.rest) != '=' then Parsed(Attribute(None, n.text), n.rest)
    else if Ends(Head(n.rest[1..])) then Wrong
    else
      var v := Value(n.rest[1..]);
      if v.Bad? || Head(v.rest) == '=' then Wrong else Parsed(Attribute(Some(n.text), v.text), v.rest)
  }

  /** A wildcard or a property. */
  function Item(s: string): Parsed {
    if Head(s) == '*' then
      var w := Wildcard(s);
      if w.Bad? then Wrong else Parsed(Attribute(None, w.text), w.rest)
    else Property(s)
  }

  lemma {:induction false} SymbolShorter(s: string)
    ensures Symbol(s).Token? ==> |Symbol(s).rest| <= |s| && Ends(Head(Symbol(s).rest))
    ensures Symbol(s).Token? && !Ends(Head(s)) ==> |Symbol(s).rest| < |s|
  {
    if s != "" && IsSymbol(s[0]) {
      SymbolShorter(s[1..]);
    }
  }

  lemma {:induction false} NumberShorter(s: string)
    ensures Number(s).Token? ==> |Number(s).rest| <= |s| && Head(Number(s).rest) != '='
  {
    if s != "" && IsDigit(s[0]) {
      NumberShorter(s[1..]);
    }
  }

  lemma {:induction false} QuotedShorter(s: string)
    ensures Quoted(s).Token? ==> |Quoted(s).rest| < |s|
    decreases |s|
  {
    if Head(s) != '\0' && s[0] != '"' {
      if s[0] != '\\' {
        QuotedShorter(s[1..]);
      } else if |s| > 1 {
        QuotedShorter(s[2..]);
      }
    }
  }

  /** An item takes something of the text, and no equals sign follows it. */
  lemma ItemShorter(s: string)
    requires !Ends(Head(s))
    ensures Item(s).Parsed? ==> |Item(s).rest| < |s| && Head(Item(s).rest) != '='
  {
    hide Symbol, Number, Quoted;
    SymbolShorter(s);
    QuotedShorter(s[1..]);
    var n := Name(s);
    if n.Token? && Head(n.rest) == '=' {
      SymbolShorter(n.rest[1..]);
      NumberShorter(n.rest[1..]);
      if n.rest[1..] != "" {
        QuotedShorter(n.rest[1..][1..]);
      }
    }
  }

  /** The parsed query, or an error with the parts that were complete. */
  datatype Result = Result(query: Query, ok: bool)

  /** The rest of a query: `parts` are complete, `part` is the one being parsed, last property first. */
  function Parts(s: string, parts: seq<Part>, part: seq<Attribute>, abs: bool): Result
    requires part == [] ==> s != ""
    requires s != "" ==> Head(s) == '\0' || !Ends(Head(s))
    decreases |s|
  {
    if Head(s) == '\0' then
      if part == [] then Result(Query(parts, abs), false) else Result(Query(parts + [part], abs), true)
    else
      ItemShorter(s);
      var a := Item(s);
      if a.Wrong? then Result(Query(parts, abs), false)
      else if Head(a.rest) == '/' then
        var parts' := parts + [[a.attr] + part];
        if Ends(Head(a.rest[1..])) then Result(Query(parts', abs), false) else Parts(a.rest[1..], parts', [], abs)
      else if Head(a.rest) == ',' then
        if Ends(Head(a.rest[1..])) then Result(Query(parts, abs), false)
        else Parts(a.rest[1..], parts, [a.attr] + part, abs)
      else Parts(a.rest, parts, [a.attr] + part, abs)
  }

  /** What `parse_context_query` makes of a text. */
  function Parse(s: string): Result {
    if Head(s) == '\0' then Result(Query([], false), true)
    else
      var abs := s[0] == '/';
      var t := if abs then s[1..] else s;
      if Ends(Head(t)) then Result(Query([], abs), false) else Parts(t, [], [], abs)
  }

  // ---------- The grammar ----------

  function EscapeChar(c: char): string {
    if c == '"' || c == '\\' then ['\\', c] else [c]
  }

  function Escape(x: string): string {
    if x == "" then "" else EscapeChar(x[0]) + Escape(x[1..])
  }

  function Quote(x: string): string {
    "\"" + Escape(x) + "\""
  }

  predicate NoNul(x: string) {
    forall k :: 0 <= k < |x| ==> x[k] != '\0'
  }

  predicate AllSymbols(x: string) {
    forall k :: 0 <= k < |x| ==> IsSymbol(x[k])
  }

  predicate AllDigits(x: string) {
    forall k :: 0 <= k < |x| ==> IsDigit(x[k])
  }

  /** A string as it is written, with or without quotes. */
  datatype Spelled = Spelled(text: string, quoted: bool)

  function Spell(x: Spelled): string {
    if x.quoted then Quote(x.text) else x.text
  }

  /** A wildcard, a value, or a name and a value. */
  datatype Piece = Wild(stars: string) | Lone(value: Spelled) | Pair(name: Spelled, value: Spelled)

  function SpellPiece(p: Piece): string {
    match p
    case Wild(stars) => stars
    case Lone(value) => Spell(value)
    case Pair(name, value) => Spell(name) + "=" + Spell(value)
  }

  function Meant(p: Piece): Attribute {
    match p
    case Wild(stars) => Attribute(None, stars)
    case Lone(value) => Attribute(None, value.text)
    case Pair(name, value) => Attribute(Some(name.text), value.text)
  }

  /** Without quotes a string is made of letters, digits and underscores; */
  predicate NameOk(x: Spelled) {
    NoNul(x.text) && (!x.quoted ==> x.text != "" && AllSymbols(x.text))
  }

  /** as the value of a named property it is a number if it begins with a digit. */
  predicate ValueOk(x: Spelled) {
    NameOk(x) && (!x.quoted && IsDigit(x.text[0]) ==> AllDigits(x.text))
  }

  predicate PieceOk(p: Piece) {
    match p
    case Wild(stars) => stars == "*" || stars == "**"
    case Lone(value) => NameOk(value)
    case Pair(name, value) => NameOk(name) && ValueOk(value)
  }

  /** What may follow a piece. */
  predicate Follows(p: Piece, rest: string) {
    var c := Head(rest);
    if p.Wild? then c == '\0' || c == '/'
    else c != '=' && (p.value.quoted || c == '\0' || c == '/' || c == ',')
  }

  /** A piece and the separator behind it; behind a quote there may be none. */
  datatype Separator = Comma | Slash | Nothing
  datatype Step = Step(piece: Piece, sep: Separator)

  function SepText(sep: Separator): string {
    match sep
    case Comma => ","
    case Slash => "/"
    case Nothing => ""
  }

  predicate SepOk(w: Step) {
    if w.piece.Wild? then w.sep.Slash? else w.sep.Nothing? ==> w.piece.value.quoted
  }

  predicate StepsOk(ws: seq<Step>) {
    && ws != [] && PieceOk(ws[0].piece)
    && if |ws| == 1 then ws[0].sep.Nothing? else SepOk(ws[0]) && StepsOk(ws[1..])
  }

  function StepsText(ws: seq<Step>): string {
    if ws == [] then "" else SpellPiece(ws[0].piece) + (SepText(ws[0].sep) + StepsText(ws[1..]))
  }

  /** The parts that the pieces make up: slashes divide parts, and the last property comes first. */
  function Collect(ws: seq<Step>, parts: seq<Part>, part: seq<Attribute>): seq<Part> {
    if ws == [] then if part == [] then parts else parts + [part]
    else if ws[0].sep.Slash? then Collect(ws[1..], parts + [[Meant(ws[0].piece)] + part], [])
    else Collect(ws[1..], parts, [Meant(ws[0].piece)] + part)
  }

  /** `s` is a text of the grammar, and it stands for `q`. */
  ghost predicate StandsFor(s: string, q: Query) {
    if s == "" then q == Query([], false)
    else exists ws ::
      StepsOk(ws) && s == (if q.absPath then "/" else "") + StepsText(ws) && q.parts == Collect(ws, [], [])
  }

  // ---------- Tokens ----------

  lemma {:induction false} NumberWritten(x: string, rest: string)
    requires AllDigits(x) && (Head(rest) == ',' || Head(rest) == '/' || Head(rest) == '\0')
    ensures Number(x + rest) == Token(x, rest)
  {
    if x == "" {
      assert x + rest == rest;
    } else {
      NumberWritten(x[1..], rest);
      assert (x + rest)[1..] == x[1..] + rest;
    }
  }

  lemma {:induction false} NumberRead(s: string)
    requires Number(s).Token?
    ensures var Token(x, rest) := Number(s);
      s == x + rest && AllDigits(x) && (Head(rest) == ',' || Head(rest) == '/' || Head(rest) == '\0')
  {
    if s != "" && IsDigit(s[0]) {
      NumberRead(s[1..]);
    }
  }

  lemma {:induction false} SymbolWritten(x: string, rest: string)
    requires AllSymbols(x) && Ends(Head(rest))
    ensures Symbol(x + rest) == Token(x, rest)
  {
    if x == "" {
      assert x + rest == rest;
    } else {
      SymbolWritten(x[1..], rest);
      assert (x + rest)[1..] == x[1..] + rest;
    }
  }

  lemma {:induction false} SymbolRead(s: string)
    requires Symbol(s).Token?
    ensures var Token(x, rest) := Symbol(s); s == x + rest && AllSymbols(x) && Ends(Head(rest))
  {
    if s != "" && IsSymbol(s[0]) {
      SymbolRead(s[1..]);
    }
  }

  lemma QuotedStep(c: char, tail: string)
    requires c != '\0'
    ensures Quoted(EscapeChar(c) + tail) == Prepend(c, Quoted(tail))
    ensures Quoted("\"" + tail) == Token("", tail)
  {
    assert ("\"" + tail)[1..] == tail;
    if c == '"' || c == '\\' {
      assert (['\\', c] + tail)[2..] == tail && (['\\', c] + tail)[1..][0] == c;
    } else {
      assert ([c] + tail)[1..] == tail;
    }
  }

  lemma {:induction false} QuotedWritten(x: string, rest: string)
    requires NoNul(x)
    ensures Quoted(Escape(x) + "\"" + rest) == Token(x, rest)
  {
    hide Quoted, EscapeChar;
    if x == "" {
      QuotedStep('a', rest);
      assert Escape(x) + "\"" + rest == "\"" + rest;
    } else {
      var tail := Escape(x[1..]) + "\"" + rest;
      QuotedWritten(x[1..], rest);
      QuotedStep(x[0], tail);
      assert Escape(x) + "\"" + rest == EscapeChar(x[0]) + tail;
    }
  }

  lemma {:induction false} QuotedRead(s: string)
    requires Quoted(s).Token?
    ensures var Token(x, rest) := Quoted(s); s == Escape(x) + "\"" + rest && NoNul(x)
    decreases |s|
  {
    hide Quoted, EscapeChar;
    QuotedFirst(s);
    if s[0] == '"' {
      assert s == "" + "\"" + s[1..];
    } else {
      var escaped := s[0] == '\\';
      var tail := if escaped then s[2..] else s[1..];
      var c := if escaped then s[1] else s[0];
      QuotedRead(tail);
      EscapeFirst(c, Quoted(tail).text);
      assert s == EscapeChar(c) + tail by { EscapedFirst(s); }
      QuotedApart(EscapeChar(c), Escape(Quoted(tail).text), Quoted(tail).rest);
    }
  }

  lemma QuotedFirst(s: string)
    requires Quoted(s).Token?
    ensures s != "" && s[0] != '\0'
    ensures s[0] == '\\' ==> |s| > 1 && (s[1] == '\\' || s[1] == '"')
    ensures
      Quoted(s) ==
      if s[0] == '"' then Token("", s[1..])
      else if s[0] == '\\' then Prepend(s[1], Quoted(s[2..])) else Prepend(s[0], Quoted(s[1..]))
  {
  }

  lemma EscapedFirst(s: string)
    requires s != "" && s[0] != '"' && (s[0] == '\\' ==> |s| > 1 && (s[1] == '\\' || s[1] == '"'))
    ensures s == if s[0] == '\\' then EscapeChar(s[1]) + s[2..] else EscapeChar(s[0]) + s[1..]
  {
  }

  lemma QuotedApart(c: string, x: string, rest: string)
    ensures c + (x + "\"" + rest) == (c + x) + "\"" + rest
  {
  }

  lemma EscapeFirst(c: char, x: string)
    ensures Escape([c] + x) == EscapeChar(c) + Escape(x)
  {
    assert ([c] + x)[1..] == x;
  }

  /** A name parses to itself if what follows ends it; */
  lemma NameWritten(x: Spelled, rest: string)
    requires NameOk(x) && (x.quoted || Ends(Head(rest)))
    ensures Name(Spell(x) + rest) == Token(x.text, rest) && !Ends(Head(Spell(x) + rest))
  {
    hide Quoted, Escape, Symbol;
    if x.quoted {
      QuotedWritten(x.text, rest);
      assert (Spell(x) + rest)[1..] == Escape(x.text) + "\"" + rest;
    } else {
      SymbolWritten(x.text, rest);
      assert IsSymbol(x.text[0]);
    }
  }

  /** and what parses as a name is one that is written so. */
  lemma NameRead(s: string) returns (x: Spelled)
    requires Name(s).Token? && !Ends(Head(s))
    ensures NameOk(x) && (x.quoted || Ends(Head(Name(s).rest)))
    ensures x.text == Name(s).text && s == Spell(x) + Name(s).rest
  {
    hide Quoted, Escape, Symbol;
    x := Spelled(Name(s).text, Head(s) == '"');
    if x.quoted {
      QuotedRead(s[1..]);
      assert s == "\"" + (Escape(x.text) + "\"" + Name(s).rest) == Quote(x.text) + Name(s).rest;
    } else {
      SymbolRead(s);
      assert s == x.text + Name(s).rest;
    }
  }

  lemma ValueWritten(x: Spelled, rest: string)
    requires ValueOk(x) && (x.quoted || Head(rest) == ',' || Head(rest) == '/' || Head(rest) == '\0')
    ensures Value(Spell(x) + rest) == Token(x.text, rest) && !Ends(Head(Spell(x) + rest))
  {
    hide Name, Number, NoNul, AllSymbols, Escape;
    NameWritten(x, rest);
    if !x.quoted && IsDigit(x.text[0]) {
      NumberWritten(x.text, rest);
    }
  }

  lemma ValueRead(s: string) returns (x: Spelled)
    requires Value(s).Token? && !Ends(Head(s)) && Head(Value(s).rest) != '='
    ensures ValueOk(x) && x.text == Value(s).text && s == Spell(x) + Value(s).rest
    ensures
      var rest := Value(s).rest;
      x.quoted || Head(rest) == ',' || Head(rest) == '/' || Head(rest) == '\0'
  {
    hide Name, Number, Escape;
    if IsDigit(Head(s)) {
      NumberRead(s);
      x := Spelled(Number(s).text, false);
      assert x.text != "";
      assert forall k :: 0 <= k < |x.text| ==> IsSymbol(x.text[k]);
    } else {
      x := NameRead(s);
      assert !x.quoted ==> x.text[0] == s[0];
    }
  }

  /** A piece that is written parses to what it means, if what follows may follow it; */
  lemma PieceWritten(p: Piece, rest: string)
    requires PieceOk(p) && Follows(p, rest)
    ensures Item(SpellPiece(p) + rest) == Parsed(Meant(p), rest) && !Ends(Head(SpellPiece(p) + rest))
  {
    hide Name, Value, NameOk, ValueOk, Spell;
    match p
    case Wild(stars) =>
      WildcardWritten(stars, rest);
    case Lone(value) =>
      NameWritten(value, rest);
      NotWild(value, rest);
    case Pair(name, value) =>
      var tail := "=" + (Spell(value) + rest);
      NameWritten(name, tail);
      NotWild(name, tail);
      ValueWritten(value, rest);
      assert SpellPiece(p) + rest == Spell(name) + tail && tail[1..] == Spell(value) + rest;
  }

  lemma WildcardWritten(stars: string, rest: string)
    requires (stars == "*" || stars == "**") && (Head(rest) == '\0' || Head(rest) == '/')
    ensures Head(stars + rest) == '*' && Wildcard(stars + rest) == Token(stars, rest)
  {
    var s := stars + rest;
    assert s[|stars|..] == rest && s[..|stars|] == stars;
    if stars == "**" {
      assert s[1..][0] == '*';
    }
  }

  lemma NotWild(x: Spelled, rest: string)
    requires NameOk(x)
    ensures Head(Spell(x) + rest) != '*'
  {
    if !x.quoted {
      assert IsSymbol(x.text[0]);
    }
  }

  /** and what parses as an item is a piece that is written so. */
  lemma PieceRead(s: string) returns (p: Piece)
    requires !Ends(Head(s)) && Item(s).Parsed?
    ensures PieceOk(p) && Meant(p) == Item(s).attr && s == SpellPiece(p) + Item(s).rest && Follows(p, Item(s).rest)
  {
    hide Name, Value, NameOk, ValueOk, Spell;
    if Head(s) == '*' {
      p := Wild(Wildcard(s).text);
      WildcardRead(s);
    } else {
      var n := Name(s);
      var name := NameRead(s);
      if Head(n.rest) != '=' {
        p := Lone(name);
      } else {
        var value := ValueRead(n.rest[1..]);
        p := Pair(name, value);
        PairRead(s, Spell(name), Spell(value), n.rest, Item(s).rest);
      }
    }
  }

  lemma WildcardRead(s: string)
    requires Head(s) == '*' && Wildcard(s).Token?
    ensures var Token(x, rest) := Wildcard(s); s == x + rest && (x == "*" || x == "**")
    ensures Head(Wildcard(s).rest) == '\0' || Head(Wildcard(s).rest) == '/'
  {
    if Head(s[1..]) == '*' {
      assert s[..2] == "**";
    } else {
      assert s[..1] == "*";
    }
  }

  lemma PairRead(s: string, name: string, value: string, tail: string, rest: string)
    requires s == name + tail && Head(tail) == '=' && tail[1..] == value + rest
    ensures s == name + "=" + value + rest
  {
    assert tail == "=" + tail[1..];
  }

  // ---------- Queries ----------

  /** What follows an item, which is now the head of `part`. */
  function Then(rest: string, parts: seq<Part>, part: Part, abs: bool): Result
    requires Head(rest) != '='
  {
    if Head(rest) == '/' then
      if Ends(Head(rest[1..])) then Result(Query(parts + [part], abs), false)
      else Parts(rest[1..], parts + [part], [], abs)
    else if Head(rest) == ',' then
      if Ends(Head(rest[1..])) then Result(Query(parts, abs), false) else Parts(rest[1..], parts, part, abs)
    else Parts(rest, parts, part, abs)
  }

  lemma PartsStep(s: string, parts: seq<Part>, part: seq<Attribute>, abs: bool)
    requires !Ends(Head(s)) && Item(s).Parsed?
    ensures Head(Item(s).rest) != '='
    ensures Parts(s, parts, part, abs) == Then(Item(s).rest, parts, [Item(s).attr] + part, abs)
  {
    hide Item;
    ItemShorter(s);
  }

  lemma PartsEnd(parts: seq<Part>, part: Part, abs: bool)
    ensures Parts("", parts, part, abs) == Result(Query(parts + [part], abs), true)
  {
  }

  /** A text of the grammar parses to what it stands for, behind what was parsed before; */
  lemma {:induction false} StepsParsed(ws: seq<Step>, parts: seq<Part>, part: seq<Attribute>, abs: bool)
    requires StepsOk(ws)
    ensures !Ends(Head(StepsText(ws)))
    ensures Parts(StepsText(ws), parts, part, abs) == Result(Query(Collect(ws, parts, part), abs), true)
    decreases |ws|
  {
    hide Parts, Item, PieceOk, SpellPiece, Meant;
    var Step(piece, sep) := ws[0];
    var more := StepsText(ws[1..]);
    var rest := SepText(sep) + more;
    var part' := [Meant(piece)] + part;
    if |ws| == 1 {
      assert rest == "";
      PartsEnd(parts, part', abs);
    } else if sep.Slash? {
      StepsParsed(ws[1..], parts + [part'], [], abs);
      assert rest[1..] == more;
    } else {
      StepsParsed(ws[1..], parts, part', abs);
      assert if sep.Comma? then rest[1..] == more else rest == more;
    }
    PieceWritten(piece, rest);
    PartsStep(StepsText(ws), parts, part, abs);
  }

  /** and a text that parses is one of the grammar. */
  lemma {:induction false} StepsRead(s: string, parts: seq<Part>, part: seq<Attribute>, abs: bool)
    returns (ws: seq<Step>)
    requires !Ends(Head(s)) && NoNul(s) && Parts(s, parts, part, abs).ok
    ensures StepsOk(ws) && s == StepsText(ws)
    ensures Parts(s, parts, part, abs).query == Query(Collect(ws, parts, part), abs)
    decreases |s|
  {
    hide PieceOk, SpellPiece, Meant, Item;
    ItemShorter(s);
    PartsStep(s, parts, part, abs);
    var piece := PieceRead(s);
    var rest := Item(s).rest;
    var part' := [Meant(piece)] + part;
    NoNulRest(s, SpellPiece(piece), rest);
    if rest == "" {
      ws := [Step(piece, Nothing)];
      PartsEnd(parts, part', abs);
    } else {
      var sep := if rest[0] == '/' then Slash else if rest[0] == ',' then Comma else Nothing;
      var more := if sep.Nothing? then rest else rest[1..];
      var ws' := StepsRead(more, if sep.Slash? then parts + [part'] else parts, if sep.Slash? then [] else part', abs);
      ws := [Step(piece, sep)] + ws';
      assert ws[1..] == ws' && rest == SepText(sep) + more;
    }
  }

  lemma NoNulRest(s: string, text: string, rest: string)
    requires NoNul(s) && s == text + rest
    ensures NoNul(rest) && (rest != "" ==> NoNul(rest[1..]) && rest[0] != '\0')
  {
    assert forall k :: 0 <= k < |rest| ==> rest[k] == s[|text| + k];
  }

  /** The parser accepts exactly the texts of the grammar, and gives the query that each one stands for. */
  lemma ParseIff(s: string, q: Query)
    requires NoNul(s)
    ensures Parse(s) == Result(q, true) <==> StandsFor(s, q)
  {
    hide Parts, StepsOk, StepsText, Collect;
    if s != "" && Parse(s) == Result(q, true) {
      var abs := s[0] == '/';
      var t := if abs then s[1..] else s;
      var ws := StepsRead(t, [], [], abs);
      assert s == (if q.absPath then "/" else "") + StepsText(ws);
    }
    if s != "" && StandsFor(s, q) {
      var ws :| StepsOk(ws) && s == (if q.absPath then "/" else "") + StepsText(ws) && q.parts == Collect(ws, [], []);
      var t := StepsText(ws);
      StepsParsed(ws, [], [], q.absPath);
      assert if q.absPath then s[1..] == t else s == t;
    }
  }

  // ---------- Writing queries ----------

  /** Quotes only where they are needed. */
  function NameOf(x: string): Spelled {
    Spelled(x, x == "" || !AllSymbols(x))
  }

  function ValueOf(x: string): Spelled {
    Spelled(x, x == "" || !AllSymbols(x) || (IsDigit(x[0]) && !AllDigits(x)))
  }

  /** A wildcard can be written as such only at the end of a part. */
  function PieceOf(a: Attribute, last: bool): Piece {
    if a.name.Some? then Pair(NameOf(a.name.value), ValueOf(a.value))
    else if last && (a.value == "*" || a.value == "**") then Wild(a.value)
    else Lone(NameOf(a.value))
  }

  /** The pieces of a part, in the order of writing, with `sep` behind the last one, and what follows. */
  function PartSteps(part: Part, sep: Separator, more: seq<Step>): seq<Step> {
    var steps := [Step(PieceOf(part[0], sep != Comma), sep)] + more;
    if |part| == 1 then steps else PartSteps(part[1..], Comma, steps)
  }

  function PartsSteps(parts: seq<Part>): seq<Step> {
    if parts == [] then []
    else PartSteps(parts[0], if |parts| == 1 then Nothing else Slash, PartsSteps(parts[1..]))
  }

  function Write(q: Query): string {
    (if q.absPath then "/" else "") + StepsText(PartsSteps(q.parts))
  }

  predicate Writable(a: Attribute) {
    NoNul(a.value) && (a.name.Some? ==> NoNul(a.name.value))
  }

  ghost predicate PartWritable(part: seq<Attribute>) {
    forall k :: 0 <= k < |part| ==> Writable(part[k])
  }

  ghost predicate AllWritable(parts: seq<Part>) {
    forall i :: 0 <= i < |parts| ==> PartWritable(parts[i])
  }

  /** A part is written with its last property last, and collected as it was. */
  lemma {:induction false} PartWritten(part: Part, sep: Separator, more: seq<Step>, parts: seq<Part>)
    requires PartWritable(part)
    requires if sep.Nothing? then more == [] else StepsOk(more)
    ensures StepsOk(PartSteps(part, sep, more))
    ensures Collect(PartSteps(part, sep, more), parts, []) ==
            if sep.Slash? then Collect(more, parts + [part], []) else Collect(more, parts, part)
    decreases |part|
  {
    hide PieceOf, PieceOk, Writable;
    var step := Step(PieceOf(part[0], sep != Comma), sep);
    var steps := [step] + more;
    PieceOfOk(part[0], sep != Comma);
    assert steps[1..] == more && (more == [] || SepOk(step));
    if |part| == 1 {
      assert [part[0]] + [] == part;
    } else {
      PartWritten(part[1..], Comma, steps, parts);
      assert [part[0]] + part[1..] == part;
    }
  }

  lemma PieceOfOk(a: Attribute, last: bool)
    requires Writable(a)
    ensures PieceOk(PieceOf(a, last)) && Meant(PieceOf(a, last)) == a
    ensures PieceOf(a, last).Wild? ==> last
  {
  }

  lemma {:induction false} PartsWritten(todo: seq<Part>, parts: seq<Part>)
    requires todo != [] && AllWritable(todo)
    ensures StepsOk(PartsSteps(todo)) && Collect(PartsSteps(todo), parts, []) == parts + todo
    decreases |todo|
  {
    hide PartSteps, PartWritable, StepsOk;
    if |todo| == 1 {
      PartWritten(todo[0], Nothing, [], parts);
      assert todo == [todo[0]] && PartsSteps(todo[1..]) == [];
    } else {
      PartsWritten(todo[1..], parts + [todo[0]]);
      PartWritten(todo[0], Slash, PartsSteps(todo[1..]), parts);
      assert parts + [todo[0]] + todo[1..] == parts + todo;
    }
  }

  /** Every query can be written so that parsing gives it back; one without parts has no slash. */
  lemma RoundTrip(q: Query)
    requires AllWritable(q.parts) && (q.parts == [] ==> !q.absPath)
    ensures Parse(Write(q)) == Result(q, true)
  {
    hide Parts, StepsOk, StepsText, Collect, PartsSteps, AllWritable;
    if q.parts == [] {
      NothingWritten();
      assert Write(q) == "";
    } else {
      PartsWritten(q.parts, []);
      var t := StepsText(PartsSteps(q.parts));
      StepsParsed(PartsSteps(q.parts), [], [], q.absPath);
      assert if q.absPath then Write(q)[1..] == t else Write(q) == t;
      assert [] + q.parts == q.parts;
    }
  }

  lemma NothingWritten()
    ensures StepsText(PartsSteps([])) == ""
  {
  }

  /** A text with a deep part that has another property, which the matcher ignores. */
  lemma DeepWithProperty()
    ensures
      var part := [Attribute(None, "**"), Attribute(Some("x"), "1")];
      Deep(part) && Parse("x=1,**") == Result(Query([part], false), true)
  {
    hide Parts;
    var part := [Attribute(None, "**"), Attribute(Some("x"), "1")];
    var ws := [Step(Pair(Spelled("x", false), Spelled("1", false)), Comma), Step(Wild("**"), Nothing)];
    assert ws[1..] == [Step(Wild("**"), Nothing)] && ws[1..][1..] == [];
    StepsParsed(ws, [], [], false);
    assert StepsText(ws[1..]) == "**";
    assert StepsText(ws) == "x=1,**";
    var first: seq<Attribute> := [Meant(ws[0].piece)];
    assert first + [] == first && [Meant(ws[1].piece)] + first == part;
    var none: seq<Part> := [];
    assert Collect(ws[1..][1..], none, part) == none + [part] == [part];
    assert Collect(ws[1..], none, first) == [part];
  }

  // ---------- The loops ----------

  /** The text read and the position behind it are those of a token. */
  ghost predicate Agrees(t: Token, q: string, ok: bool, text: string, next: nat) {
    if t.Bad? then !ok else ok && next <= |q| && t == Token(text, q[next..])
  }

  /** `text`, read from the beginning of `t`, and what is still to be read make up `t`. */
  function Joined(text: string, t: Token): Token {
    if t.Bad? then t else Token(text + t.text, t.rest)
  }

  lemma NumberAt(q: string, i: nat)
    requires i <= |q|
    ensures
      var c := if i < |q| then q[i] else '\0';
      Number(q[i..]) ==
      if i < |q| && IsDigit(c) then Prepend(c, Number(q[i + 1..]))
      else if c == ',' || c == '/' || c == '\0' then Token("", q[i..]) else Bad
  {
    if i < |q| {
      assert q[i..][1..] == q[i + 1..];
    }
  }

  lemma SymbolAt(q: string, i: nat)
    requires i <= |q|
    ensures
      var c := if i < |q| then q[i] else '\0';
      Symbol(q[i..]) ==
      if i < |q| && IsSymbol(c) then Prepend(c, Symbol(q[i + 1..]))
      else if Ends(c) then Token("", q[i..]) else Bad
  {
    if i < |q| {
      assert q[i..][1..] == q[i + 1..];
    }
  }

  /** `parse_number`. */
  method ParseNumber(q: string, start: nat) returns (ok: bool, text: string, next: nat)
    requires start <= |q|
    ensures Agrees(Number(q[start..]), q, ok, text, next)
  {
    hide Number;
    next := start;
    text := "";
    while next < |q| && IsDigit(q[next])
      invariant start <= next <= |q|
      invariant Number(q[start..]) == Joined(text, Number(q[next..]))
    {
      NumberAt(q, next);
      text := text + [q[next]];
      next := next + 1;
    }
    NumberAt(q, next);
    var c := if next < |q| then q[next] else '\0';
    ok := c == ',' || c == '/' || c == '\0';
  }

  /** `parse_symbol`. */
  method ParseSymbol(q: string, start: nat) returns (ok: bool, text: string, next: nat)
    requires start <= |q|
    ensures Agrees(Symbol(q[start..]), q, ok, text, next)
  {
    hide Symbol;
    next := start;
    text := "";
    while next < |q| && IsSymbol(q[next])
      invariant start <= next <= |q|
      invariant Symbol(q[start..]) == Joined(text, Symbol(q[next..]))
    {
      SymbolAt(q, next);
      text := text + [q[next]];
      next := next + 1;
    }
    SymbolAt(q, next);
    var c := if next < |q| then q[next] else '\0';
    ok := Ends(c);
  }

  /** `parse_quoted_string`, from behind the opening quote. */
  method ParseQuoted(q: string, start: nat) returns (ok: bool, text: string, next: nat)
    requires start <= |q|
    ensures Agrees(Quoted(q[start..]), q, ok, text, next)
  {
    hide Quoted;
    next := start;
    text := "";
    while next < |q| && q[next] != '"' && q[next] != '\0'
      invariant start <= next <= |q|
      invariant Quoted(q[start..]) == Joined(text, Quoted(q[next..]))
      decreases |q| - next
    {
      QuotedAt(q, next);
      if q[next] == '\\' {
        next := next + 1;
        if next == |q| || (q[next] != '\\' && q[next] != '"') {
          return false, text, next;
        }
      }
      text := text + [q[next]];
      next := next + 1;
    }
    QuotedAt(q, next);
    ok := next < |q| && q[next] == '"';
    if ok {
      next := next + 1;
    }
  }

  lemma QuotedAt(q: string, i: nat)
    requires i <= |q|
    ensures
      Quoted(q[i..]) ==
      if i == |q| || q[i] == '\0' then Bad
      else if q[i] == '"' then Token("", q[i + 1..])
      else if q[i] != '\\' then Prepend(q[i], Quoted(q[i + 1..]))
      else if i + 1 < |q| && (q[i + 1] == '\\' || q[i + 1] == '"') then Prepend(q[i + 1], Quoted(q[i + 2..]))
      else Bad
  {
    if i < |q| {
      assert q[i..][1..] == q[i + 1..];
      if i + 1 < |q| {
        assert q[i..][2..] == q[i + 2..];
      }
    }
  }

  /** `parse_wildcard`. */
  method ParseWildcard(q: string, start: nat) returns (ok: bool, text: string, next: nat)
    requires start < |q|
    ensures Agrees(Wildcard(q[start..]), q, ok, text, next)
  {
    var s := q[start..];
    next := start + 1;
    text := [q[start]];
    assert s[1..] == q[start + 1..];
    if next < |q| && q[next] == '*' {
      text := text + [q[next]];
      next := next + 1;
      assert s[2..] == q[start + 2..];
    }
    assert text == s[..next - start] && q[next..] == s[next - start..];
    ok := next == |q| || q[next] == '\0' || q[next] == '/';
  }

  /** `parse_string`, for a name, and `parse_value`, which also takes numbers. */
  method ParseText(q: string, start: nat, value: bool) returns (ok: bool, text: string, next: nat)
    requires start <= |q|
    ensures Agrees(if value then Value(q[start..]) else Name(q[start..]), q, ok, text, next)
  {
    hide Number, Symbol, Quoted;
    if value && start < |q| && IsDigit(q[start]) {
      ok, text, next := ParseNumber(q, start);
    } else if start < |q| && q[start] == '"' {
      assert q[start..][1..] == q[start + 1..];
      ok, text, next := ParseQuoted(q, start + 1);
    } else {
      ok, text, next := ParseSymbol(q, start);
    }
  }

  /** `parse_property`. */
  method ParseProperty(q: string, start: nat) returns (ok: bool, attr: Attribute, next: nat)
    requires start <= |q|
    ensures if Property(q[start..]).Wrong? then !ok
            else ok && next <= |q| && Property(q[start..]) == Parsed(attr, q[next..])
  {
    hide Name, Value;
    attr := Attribute(None, "");
    var name, value;
    ok, name, next := ParseText(q, start, false);
    if !ok {
      return;
    }
    if next == |q| || q[next] != '=' {
      return true, Attribute(None, name), next;
    }
    assert q[next..][1..] == q[next + 1..];
    next := next + 1;
    if next == |q| || Ends(q[next]) {
      return false, attr, next;
    }
    ok, value, next := ParseText(q, next, true);
    if !ok || (next < |q| && q[next] == '=') {
      return false, attr, next;
    }
    attr := Attribute(Some(name), value);
  }

  method ParseItem(q: string, start: nat) returns (ok: bool, attr: Attribute, next: nat)
    requires start < |q|
    ensures if Item(q[start..]).Wrong? then !ok
            else ok && next <= |q| && Item(q[start..]) == Parsed(attr, q[next..])
  {
    hide Wildcard, Property;
    if q[start] == '*' {
      var text;
      ok, text, next := ParseWildcard(q, start);
      attr := Attribute(None, text);
    } else {
      ok, attr, next := ParseProperty(q, start);
    }
  }

  /** `parse_context_query`: on an error the parts that were complete stay set. */
  method ParseContextQuery(q: string) returns (attrs: seq<Part>, absPath: bool, ok: bool)
    ensures Result(Query(attrs, absPath), ok) == Parse(q)
  {
    hide Parts;
    attrs, absPath := [], false;
    if |q| == 0 || q[0] == '\0' {
      return attrs, false, true;
    }
    absPath := q[0] == '/';
    var start := if absPath then 1 else 0;
    assert q[0..] == q;
    if start == |q| || Ends(q[start]) {
      return attrs, absPath, false;
    }
    attrs, ok := ParseParts(q, start, absPath);
  }

  method ParseParts(q: string, start: nat, ghost abs: bool) returns (attrs: seq<Part>, ok: bool)
    requires start < |q| && !Ends(q[start])
    ensures Result(Query(attrs, abs), ok) == Parts(q[start..], [], [], abs)
  {
    hide Item;
    attrs := [];
    var attr: seq<Attribute> := [];
    var pos := start;
    while pos < |q| && q[pos] != '\0'
      invariant start <= pos <= |q| && (attr == [] ==> pos < |q| && q[pos] != '\0')
      invariant pos < |q| && q[pos] != '\0' ==> !Ends(q[pos])
      invariant Parts(q[start..], [], [], abs) == Parts(q[pos..], attrs, attr, abs)
      decreases |q| - pos
    {
      ItemShorter(q[pos..]);
      var a, next;
      ok, a, next := ParseItem(q, pos);
      if !ok {
        return attrs, false;
      }
      PartsStep(q[pos..], attrs, attr, abs);
      attr := [a] + attr;
      pos := next;
      if pos < |q| && q[pos] == '/' {
        attrs := attrs + [attr];
        attr := [];
        assert q[pos..][1..] == q[pos + 1..];
        pos := pos + 1;
        if pos == |q| || Ends(q[pos]) {
          return attrs, false;
        }
      } else if pos < |q| && q[pos] == ',' {
        assert q[pos..][1..] == q[pos + 1..];
        pos := pos + 1;
        if pos == |q| || Ends(q[pos]) {
          return attrs, false;
        }
      }
    }
    attrs := attrs + [attr];
    ok := true;
  }
}
