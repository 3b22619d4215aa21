/** The text form of a polygraph: one line for the number of nodes, one per stored edge, one per pair. */
module PolyGraphFiles {
  import opened Events
  import opened PolyGraphs
  import opened Wrappers

  // ----- numbers and splitting

  function Digit(d: nat): char
    requires d < 10
  {
    "0123456789"[d]
  }

  function Decimal(n: nat): (s: string)
    ensures s != [] && forall c :: c in s ==> '0' <= c <= '9'
  {
    if n < 10 then [Digit(n)] else Decimal(n / 10) + [Digit(n % 10)]
  }

  /** The number a string of digits stands for. */
  function Number(s: string): Option<nat> {
    if s == [] then None
    else
      var c := s[|s| - 1];
      if !('0' <= c <= '9') then None
      else if |s| == 1 then Some((c - '0') as nat)
      else
        match Number(s[..|s| - 1])
        case None => None
        case Some(m) => Some(10 * m + (c - '0') as nat)
  }

  ghost function Pow10(k: nat): nat {
    if k == 0 then 1 else 10 * Pow10(k - 1)
  }

  ghost predicate AllDigits(s: string) {
    forall i :: 0 <= i < |s| ==> '0' <= s[i] <= '9'
  }

  /** The sum of the digits, each times the power of ten of its place. */
  ghost function PlaceValue(s: string): nat
    requires AllDigits(s)
  {
    if s == [] then 0 else (s[0] - '0') as nat * Pow10(|s| - 1) + PlaceValue(s[1..])
  }

  /** At least one digit, and nothing but digits, worth n by their places. */
  ghost predicate IsNumeral(s: string, n: nat) {
    s != [] && AllDigits(s) && PlaceValue(s) == n
  }

  lemma TenTimes(d: nat, k: nat)
    ensures d * Pow10(k + 1) == 10 * (d * Pow10(k))
  {
    var p := Pow10(k);
    assert d * (10 * p) == 10 * (d * p);
  }

  lemma {:induction false} OneMoreDigit(s: string, c: char)
    requires AllDigits(s) && '0' <= c <= '9'
    ensures AllDigits(s + [c]) && PlaceValue(s + [c]) == 10 * PlaceValue(s) + (c - '0') as nat
  {
    if s == [] {
      assert PlaceValue([c]) == (c - '0') as nat * Pow10(0) + PlaceValue([]);
    } else {
      OneMoreDigit(s[1..], c);
      assert (s + [c])[1..] == s[1..] + [c] && (s + [c])[0] == s[0];
      TenTimes((s[0] - '0') as nat, |s| - 1);
    }
  }

  /** Exactly the numerals are read as numbers, with leading zeros or without. */
  lemma {:induction false} NumberMeans(s: string, n: nat)
    ensures Number(s) == Some(n) <==> IsNumeral(s, n)
  {
    if s != [] {
      var init, c := s[..|s| - 1], s[|s| - 1];
      assert s == init + [c];
      assert AllDigits(s) <==> AllDigits(init) && '0' <= c <= '9';
      if AllDigits(s) {
        OneMoreDigit(init, c);
        NumberMeans(init, PlaceValue(init));
      } else if '0' <= c <= '9' && Number(init).Some? {
        NumberMeans(init, Number(init).value);
        assert false;
      }
    }
  }

  /** Numbers are written as numerals without leading zeros, and read back. */
  lemma {:induction false} NumberOfDecimal(n: nat)
    ensures Number(Decimal(n)) == Some(n) && IsNumeral(Decimal(n), n)
    ensures (n > 0 ==> Decimal(n)[0] != '0') && (n == 0 ==> Decimal(n) == "0")
  {
    if n >= 10 {
      var s := Decimal(n / 10);
      NumberOfDecimal(n / 10);
      OneMoreDigit(s, Digit(n % 10));
      assert Decimal(n)[0] == s[0];
    } else {
      OneMoreDigit([], Digit(n));
      assert [] + [Digit(n)] == Decimal(n);
    }
    NumberMeans(Decimal(n), n);
  }

  function Split(s: string, sep: char): (parts: seq<string>)
    ensures parts != []
  {
    if s == [] then [[]]
    else
      var rest := Split(s[1..], sep);
      if s[0] == sep then [[]] + rest else [[s[0]] + rest[0]] + rest[1..]
  }

  lemma {:induction false} SplitFirst(a: string, sep: char, b: string)
    requires sep !in a
    ensures Split(a + [sep] + b, sep) == [a] + Split(b, sep)
  {
    var s := a + [sep] + b;
    if a == [] {
      assert s[1..] == b;
    } else {
      SplitFirst(a[1..], sep, b);
      assert s[1..] == a[1..] + [sep] + b;
      assert a == [a[0]] + a[1..];
    }
  }

  lemma {:induction false} SplitNone(a: string, sep: char)
    requires sep !in a
    ensures Split(a, sep) == [a]
  {
    if a != [] {
      SplitNone(a[1..], sep);
      assert a == [a[0]] + a[1..];
    }
  }

  /** The parts with the separator between any two of them. */
  ghost function Join(parts: seq<string>, sep: char): string {
    if parts == [] then [] else if |parts| == 1 then parts[0] else parts[0] + [sep] + Join(parts[1..], sep)
  }

  lemma {:induction false} SplitJoins(s: string, sep: char)
    ensures Join(Split(s, sep), sep) == s
    ensures forall part :: part in Split(s, sep) ==> sep !in part
  {
    if s != [] {
      var rest := Split(s[1..], sep);
      SplitJoins(s[1..], sep);
      if s[0] != sep {
        assert ([[s[0]] + rest[0]] + rest[1..])[1..] == rest[1..];
        assert forall part :: part in rest[1..] ==> part in rest;
        assert rest[0] in rest;
      }
    }
  }

  // ----- records

  datatype Record = Nodes(n: nat) | Known(e: Edge) | Pair(e1: Edge, e2: Edge)

  function TypeName(k: EdgeType): string {
    match k
    case WR => "wr"
    case WW => "ww"
    case RW => "rw"
    case CB => "cb"
  }

  function TypeOf(s: string): Option<EdgeType> {
    if s == "wr" then Some(WR)
    else if s == "ww" then Some(WW)
    else if s == "rw" then Some(RW)
    else if s == "cb" then Some(CB)
    else None
  }

  function EdgeText(e: Edge): string {
    Decimal(e.src) + [','] + (Decimal(e.dst) + [','] + TypeName(e.kind))
  }

  /** The line of a record, without its line break. */
  function LineText(r: Record): string {
    match r
    case Nodes(n) => "n" + [':'] + Decimal(n)
    case Known(e) => "e" + [':'] + EdgeText(e)
    case Pair(e1, e2) => "p" + [':'] + (("(" + EdgeText(e1) + ")") + [' '] + ("(" + EdgeText(e2) + ")"))
  }

  lemma EdgeTextMeans(e: Edge)
    ensures EdgeText(e) == Decimal(e.src) + "," + Decimal(e.dst) + "," + TypeName(e.kind)
  {
    var src, dst, kind := Decimal(e.src), Decimal(e.dst), TypeName(e.kind);
    assert src + [','] + (dst + [','] + kind) == src + "," + dst + "," + kind;
  }

  lemma PairTextMeans(a: string, b: string)
    ensures "p" + [':'] + (("(" + a + ")") + [' '] + ("(" + b + ")")) == "p:(" + a + ") (" + b + ")"
  {
    assert ("(" + a + ")") + [' '] + ("(" + b + ")") == "(" + a + ") (" + b + ")" by {
      assert ")" + [' '] + "(" == ") (";
    }
    assert "p" + [':'] == "p:" && "p:" + "(" == "p:(";
  }

  /** The formats of the three kinds of lines. */
  lemma LineTextMeans(r: Record)
    ensures match r
            case Nodes(n) => LineText(r) == "n:" + Decimal(n)
            case Known(e) => LineText(r) == "e:" + EdgeText(e)
            case Pair(e1, e2) => LineText(r) == "p:(" + EdgeText(e1) + ") (" + EdgeText(e2) + ")"
  {
    assert "n" + [':'] == "n:" && "e" + [':'] == "e:";
    if r.Pair? {
      PairTextMeans(EdgeText(r.e1), EdgeText(r.e2));
    }
  }

  /** Every line, each followed by a line break. */
  ghost function Text(lines: seq<string>): string {
    if lines == [] then [] else lines[0] + ['\n'] + Text(lines[1..])
  }

  ghost predicate AreLines(lines: seq<string>) {
    forall i :: 0 <= i < |lines| ==> '\n' !in lines[i]
  }

  function ExtractEdge(s: string): Option<Edge> {
    var tokens := Split(s, ',');
    if |tokens| != 3 then None
    else
      match (Number(tokens[0]), Number(tokens[1]), TypeOf(tokens[2]))
      case (Some(src), Some(dst), Some(kind)) => Some(Edge(src, dst, kind))
      case _ => None
  }

  /** Drops the first and the last character. */
  function Inner(s: string): string {
    if |s| < 2 then [] else s[1..|s| - 1]
  }

  function ExtractPair(s: string): Option<Record> {
    var parts := Split(s, ' ');
    if |parts| != 2 then None
    else
      match (ExtractEdge(Inner(parts[0])), ExtractEdge(Inner(parts[1])))
      case (Some(e1), Some(e2)) => Some(Pair(e1, e2))
      case _ => None
  }

  function ParseLine(line: string): Option<Record> {
    var elems := Split(line, ':');
    if |elems| != 2 then None
    else if elems[0] == "n" then (match Number(elems[1]) case Some(n) => Some(Nodes(n)) case None => None)
    else if elems[0] == "e" then (match ExtractEdge(elems[1]) case Some(e) => Some(Known(e)) case None => None)
    else if elems[0] == "p" then ExtractPair(elems[1])
    else None
  }

  ghost predicate Plain(s: string) {
    forall c :: c in s ==> c != ':' && c != ' ' && c != '\n'
  }

  lemma EdgeTextIsPlain(e: Edge)
    ensures Plain(EdgeText(e))
  {
  }

  lemma EdgeTextSpells(e: Edge)
    ensures Plain(EdgeText(e)) && SpellsEdge(EdgeText(e), e)
  {
    EdgeTextIsPlain(e);
    EdgeTextMeans(e);
    NumberOfDecimal(e.src);
    NumberOfDecimal(e.dst);
  }

  /** How the types are spelled. */
  lemma TypeSpelling(k: EdgeType, s: string)
    ensures TypeName(WR) == "wr" && TypeName(WW) == "ww" && TypeName(RW) == "rw" && TypeName(CB) == "cb"
    ensures TypeOf(s) == Some(k) <==> s == TypeName(k)
  {
  }

  /** Source, target and type name, separated by commas. */
  ghost predicate SpellsEdge(s: string, e: Edge) {
    exists a, b :: s == a + "," + b + "," + TypeName(e.kind) && IsNumeral(a, e.src) && IsNumeral(b, e.dst)
  }

  /** Any first and last character, and an edge between them. */
  ghost predicate SpellsBracketed(s: string, e: Edge) {
    ' ' !in s && |s| >= 2 && SpellsEdge(s[1..|s| - 1], e)
  }

  ghost predicate SpellsPair(s: string, e1: Edge, e2: Edge) {
    exists a, b :: s == a + " " + b && SpellsBracketed(a, e1) && SpellsBracketed(b, e2)
  }

  /** The line, without its line break, stands for the record. */
  ghost predicate IsLineOf(line: string, r: Record) {
    |line| >= 2 && ':' !in line[2..] &&
    match r
    case Nodes(n) => line[..2] == "n:" && IsNumeral(line[2..], n)
    case Known(e) => line[..2] == "e:" && SpellsEdge(line[2..], e)
    case Pair(e1, e2) => line[..2] == "p:" && SpellsPair(line[2..], e1, e2)
  }

  lemma ExtractSpells(s: string, e: Edge)
    requires ExtractEdge(s) == Some(e)
    ensures SpellsEdge(s, e)
  {
    var tokens := Split(s, ',');
    SplitJoins(s, ',');
    JoinThree(tokens, ',');
    NumberMeans(tokens[0], e.src);
    NumberMeans(tokens[1], e.dst);
    assert s == tokens[0] + "," + tokens[1] + "," + TypeName(e.kind);
  }

  lemma JoinThree(parts: seq<string>, sep: char)
    requires |parts| == 3
    ensures Join(parts, sep) == parts[0] + [sep] + parts[1] + [sep] + parts[2]
  {
    assert parts[1..][1..] == [parts[2]];
    assert Join(parts[1..], sep) == parts[1] + [sep] + parts[2];
    assert Join(parts, sep) == parts[0] + [sep] + (parts[1] + [sep] + parts[2]);
  }

  lemma ExtractMeans(s: string, e: Edge)
    ensures ExtractEdge(s) == Some(e) <==> SpellsEdge(s, e)
  {
    if ExtractEdge(s) == Some(e) {
      ExtractSpells(s, e);
    }
    if a, b :| s == a + "," + b + "," + TypeName(e.kind) && IsNumeral(a, e.src) && IsNumeral(b, e.dst) {
      assert s == a + [','] + (b + [','] + TypeName(e.kind));
      SplitThree(a, b, TypeName(e.kind), ',');
      NumberMeans(a, e.src);
      NumberMeans(b, e.dst);
    }
  }

  lemma ExtractPairMeans(s: string, e1: Edge, e2: Edge)
    ensures ExtractPair(s) == Some(Pair(e1, e2)) <==> SpellsPair(s, e1, e2)
  {
    if ExtractPair(s) == Some(Pair(e1, e2)) {
      var parts := Split(s, ' ');
      SplitJoins(s, ' ');
      assert s == parts[0] + " " + parts[1];
      ExtractMeans(Inner(parts[0]), e1);
      ExtractMeans(Inner(parts[1]), e2);
      assert SpellsBracketed(parts[0], e1) && SpellsBracketed(parts[1], e2);
    }
    if a, b :| s == a + " " + b && SpellsBracketed(a, e1) && SpellsBracketed(b, e2) {
      SplitTwo(a, b, ' ');
      ExtractMeans(Inner(a), e1);
      ExtractMeans(Inner(b), e2);
    }
  }

  lemma ColonSplits(line: string)
    ensures |Split(line, ':')| == 2 && |Split(line, ':')[0]| == 1 <==>
              |line| >= 2 && line[0] != ':' && line[1] == ':' && ':' !in line[2..]
    ensures |line| >= 2 && line[0] != ':' && line[1] == ':' && ':' !in line[2..] ==>
              Split(line, ':') == [line[..1], line[2..]]
  {
    var elems := Split(line, ':');
    SplitJoins(line, ':');
    if |elems| == 2 && |elems[0]| == 1 {
      assert line == elems[0] + [':'] + elems[1];
      assert elems[0] in elems && elems[1] in elems;
      assert line[2..] == elems[1];
    }
    if |line| >= 2 && line[0] != ':' && line[1] == ':' && ':' !in line[2..] {
      SplitTwo(line[..1], line[2..], ':');
      assert line == line[..1] + [':'] + line[2..];
    }
  }

  /** A line is read as a record exactly when it is a line of that record. */
  lemma ParseMeans(line: string, r: Record)
    ensures ParseLine(line) == Some(r) <==> IsLineOf(line, r)
  {
    ColonSplits(line);
    if |line| >= 2 && line[0] != ':' && line[1] == ':' && ':' !in line[2..] {
      BodyMeans(line[2..], r);
      assert forall c: char :: line[..1] == [c] <==> line[..2] == [c, ':'];
    }
  }

  lemma BodyMeans(body: string, r: Record)
    ensures r.Nodes? ==> (Number(body) == Some(r.n) <==> IsNumeral(body, r.n))
    ensures r.Known? ==> (ExtractEdge(body) == Some(r.e) <==> SpellsEdge(body, r.e))
    ensures r.Pair? ==> (ExtractPair(body) == Some(r) <==> SpellsPair(body, r.e1, r.e2))
    ensures ExtractPair(body).Some? ==> ExtractPair(body).value.Pair?
  {
    match r
    case Nodes(n) => NumberMeans(body, n);
    case Known(e) => ExtractMeans(body, e);
    case Pair(e1, e2) => ExtractPairMeans(body, e1, e2);
  }

  lemma SplitThree(a: string, b: string, c: string, sep: char)
    requires sep !in a && sep !in b && sep !in c
    ensures Split(a + [sep] + (b + [sep] + c), sep) == [a, b, c]
  {
    SplitFirst(a, sep, b + [sep] + c);
    SplitFirst(b, sep, c);
    SplitNone(c, sep);
  }

  lemma SplitTwo(a: string, b: string, sep: char)
    requires sep !in a && sep !in b
    ensures Split(a + [sep] + b, sep) == [a, b]
  {
    SplitFirst(a, sep, b);
    SplitNone(b, sep);
  }

  lemma BracketSpells(e: Edge)
    ensures SpellsBracketed("(" + EdgeText(e) + ")", e) && ':' !in "(" + EdgeText(e) + ")"
  {
    EdgeTextSpells(e);
    assert ("(" + EdgeText(e) + ")")[1..|EdgeText(e)| + 1] == EdgeText(e);
  }

  /** Every line that is written is a line of its record, and is read back as that record. */
  lemma ParseOfLine(r: Record)
    ensures IsLineOf(LineText(r), r) && ParseLine(LineText(r)) == Some(r)
  {
    ParseMeans(LineText(r), r);
    match r
    case Nodes(n) =>
      NumberOfDecimal(n);
      assert LineText(r)[2..] == Decimal(n);
    case Known(e) =>
      EdgeTextSpells(e);
      assert LineText(r)[2..] == EdgeText(e);
    case Pair(e1, e2) =>
      PairLineSpells(e1, e2);
  }

  lemma PairLineSpells(e1: Edge, e2: Edge)
    ensures IsLineOf(LineText(Pair(e1, e2)), Pair(e1, e2))
  {
    BracketSpells(e1);
    BracketSpells(e2);
    var a, b := "(" + EdgeText(e1) + ")", "(" + EdgeText(e2) + ")";
    assert LineText(Pair(e1, e2))[2..] == a + " " + b;
  }

  // ----- loading

  function TypeRank(k: EdgeType): nat {
    // the order of the type names
    match k
    case CB => 0
    case RW => 1
    case WR => 2
    case WW => 3
  }

  predicate Before(e2: Edge, e1: Edge) {
    || e2.src < e1.src
    || (e2.src == e1.src && e2.dst < e1.dst)
    || (e2.src == e1.src && e2.dst == e1.dst && TypeRank(e2.kind) < TypeRank(e1.kind))
  }

  function SortPair(p: (Edge, Edge)): (Edge, Edge) {
    if Before(p.1, p.0) then (p.1, p.0) else p
  }

  /** Dictionary order. */
  ghost predicate LexBefore(s: string, t: string) {
    t != [] && (s == [] || s[0] < t[0] || (s[0] == t[0] && LexBefore(s[1..], t[1..])))
  }

  /** By source, then by target, then by the name of the type: the first edge does not come after the second. */
  ghost predicate InOrder(p: (Edge, Edge)) {
    || p.0.src < p.1.src
    || (p.0.src == p.1.src && p.0.dst < p.1.dst)
    || (p.0.src == p.1.src && p.0.dst == p.1.dst && !LexBefore(TypeName(p.1.kind), TypeName(p.0.kind)))
  }

  lemma TypesInOrder(j: EdgeType, k: EdgeType)
    ensures LexBefore(TypeName(j), TypeName(k)) <==> TypeRank(j) < TypeRank(k)
  {
    var s, t := TypeName(j), TypeName(k);
    assert LexBefore(s[1..], t[1..]) <==> s[1] < t[1] by {
      assert !LexBefore(s[1..][1..], t[1..][1..]);
    }
  }

  /** Sorting gives whichever of the two orders of a pair is in order. */
  lemma SortPairMeans(p: (Edge, Edge))
    ensures SortPair(p) == SortPair((p.1, p.0)) && InOrder(SortPair(p))
    ensures SortPair(p) == p || SortPair(p) == (p.1, p.0)
    ensures InOrder(p) ==> SortPair(p) == p
  {
    TypesInOrder(p.0.kind, p.1.kind);
    TypesInOrder(p.1.kind, p.0.kind);
    if !Before(p.0, p.1) && !Before(p.1, p.0) {
      assert p.0 == p.1;
    }
  }

  lemma SortPairsMeans(pairs: set<(Edge, Edge)>, p: (Edge, Edge))
    ensures p in SortPairs(pairs) <==> InOrder(p) && (p in pairs || (p.1, p.0) in pairs)
  {
    if p in SortPairs(pairs) {
      var q :| q in pairs && SortPair(q) == p;
      SortPairMeans(q);
    }
    if InOrder(p) {
      SortPairMeans(p);
      assert (p.0, p.1) == p;
    }
  }

  ghost function SortPairs(pairs: set<(Edge, Edge)>): set<(Edge, Edge)> {
    set p | p in pairs :: SortPair(p)
  }

  /** What has been loaded: number of nodes, edges, and pairs in sorted order. */
  datatype Loaded = Loaded(n: nat, edges: set<Edge>, pairs: set<(Edge, Edge)>)

  /** Adds a record; a second number of nodes and a repeated edge are errors. */
  function Add(l: Loaded, r: Record): Option<Loaded> {
    match r
    case Nodes(n) => if l.n != 0 then None else Some(l.(n := n))
    case Known(e) => if e in l.edges then None else Some(l.(edges := l.edges + {e}))
    case Pair(e1, e2) => Some(l.(pairs := l.pairs + {SortPair((e1, e2))}))
  }

  ghost function AddLines(l: Loaded, lines: seq<string>): Option<Loaded>
    decreases |lines|
  {
    if lines == [] then Some(l)
    else
      match ParseLine(lines[0])
      case None => None
      case Some(r) =>
        match Add(l, r)
        case None => None
        case Some(m) => AddLines(m, lines[1..])
  }

  /** The lines of a text; what follows the last line break must be empty. */
  function Lines(text: string): Option<seq<string>> {
    var parts := Split(text, '\n');
    if parts[|parts| - 1] == [] then Some(parts[..|parts| - 1]) else None
  }

  ghost function Parse(text: string): Option<Loaded> {
    match Lines(text)
    case None => None
    case Some(lines) => AddLines(Loaded(0, {}, {}), lines)
  }

  lemma {:induction false} LinesOfText(lines: seq<string>)
    requires AreLines(lines)
    ensures Split(Text(lines), '\n') == lines + [[]]
  {
    if lines != [] {
      SplitFirst(lines[0], '\n', Text(lines[1..]));
      LinesOfText(lines[1..]);
    }
  }

  lemma {:induction false} TextOfLines(parts: seq<string>)
    requires parts != [] && parts[|parts| - 1] == []
    ensures Join(parts, '\n') == Text(parts[..|parts| - 1])
  {
    if |parts| > 1 {
      TextOfLines(parts[1..]);
      assert parts[1..][..|parts| - 2] == parts[..|parts| - 1][1..];
    }
  }

  /** The lines of a text are the only ones that make it up. */
  lemma LinesMeans(text: string, lines: seq<string>)
    ensures Lines(text) == Some(lines) <==> AreLines(lines) && text == Text(lines)
  {
    if Lines(text) == Some(lines) {
      var parts := Split(text, '\n');
      SplitJoins(text, '\n');
      TextOfLines(parts);
      forall i | 0 <= i < |lines| ensures '\n' !in lines[i] {
        assert lines[i] in parts;
      }
    }
    if AreLines(lines) && text == Text(lines) {
      LinesOfText(lines);
      assert (lines + [[]])[..|lines|] == lines;
    }
  }

  ghost function AddRecords(l: Loaded, recs: seq<Record>): Option<Loaded>
    decreases |recs|
  {
    if recs == [] then Some(l)
    else
      match Add(l, recs[0])
      case None => None
      case Some(m) => AddRecords(m, recs[1..])
  }

  ghost predicate ReadAs(lines: seq<string>, recs: seq<Record>) {
    |lines| == |recs| && forall i :: 0 <= i < |lines| ==> IsLineOf(lines[i], recs[i])
  }

  lemma {:induction false} LinesLoadRecords(l: Loaded, lines: seq<string>, recs: seq<Record>)
    requires ReadAs(lines, recs)
    ensures AddLines(l, lines) == AddRecords(l, recs)
    decreases |recs|
  {
    if recs != [] {
      ParseMeans(lines[0], recs[0]);
      if m :| Add(l, recs[0]) == Some(m) {
        LinesLoadRecords(m, lines[1..], recs[1..]);
      }
    }
  }

  lemma {:induction false} LoadedLinesAreRecords(l: Loaded, lines: seq<string>) returns (recs: seq<Record>)
    requires AddLines(l, lines).Some?
    ensures ReadAs(lines, recs)
    decreases |lines|
  {
    recs := [];
    if lines != [] {
      var r := ParseLine(lines[0]).value;
      ParseMeans(lines[0], r);
      var rest := LoadedLinesAreRecords(Add(l, r).value, lines[1..]);
      recs := [r] + rest;
    }
  }

  lemma {:induction false} AddRecordsAppend(l: Loaded, recs: seq<Record>, r: Record)
    ensures AddRecords(l, recs + [r]) == match AddRecords(l, recs) case None => None case Some(m) => Add(m, r)
    decreases |recs|
  {
    if recs == [] {
      assert (recs + [r])[1..] == [];
    } else {
      assert (recs + [r])[1..] == recs[1..] + [r];
      if m :| Add(l, recs[0]) == Some(m) {
        AddRecordsAppend(m, recs[1..], r);
      }
    }
  }

  /** No edge is listed twice, and no number of nodes follows one other than 0. */
  ghost predicate Loadable(recs: seq<Record>) {
    && (forall i, j :: 0 <= i < j < |recs| && recs[i].Known? ==> recs[i] != recs[j])
    && (forall i, j :: 0 <= i < j < |recs| && recs[i].Nodes? && recs[j].Nodes? ==> recs[i].n == 0)
  }

  /** The number of nodes given, if any, exactly the listed edges, and every listed pair in order. */
  ghost predicate Holds(recs: seq<Record>, l: Loaded) {
    && (l.n == 0 || Nodes(l.n) in recs) && (forall n :: Nodes(n) in recs ==> n == 0 || n == l.n)
    && (forall e :: e in l.edges <==> Known(e) in recs)
    && (forall p :: p in l.pairs <==> InOrder(p) && (Pair(p.0, p.1) in recs || Pair(p.1, p.0) in recs))
  }

  lemma HoldsOnce(recs: seq<Record>, l: Loaded, m: Loaded)
    requires Holds(recs, l) && Holds(recs, m)
    ensures l == m
  {
    assert l.n == m.n;
    assert l.edges == m.edges && l.pairs == m.pairs;
  }

  lemma LoadableStep(recs: seq<Record>, l: Loaded, r: Record)
    requires Loadable(recs) && Holds(recs, l)
    ensures Add(l, r).Some? <==> Loadable(recs + [r])
    ensures Add(l, r).Some? ==> Holds(recs + [r], Add(l, r).value)
  {
    var all := recs + [r];
    assert all[|recs|] == r && forall i :: 0 <= i < |recs| ==> all[i] == recs[i];
    match r
    case Nodes(n) =>
      assert l.n != 0 ==> Nodes(l.n) in recs;
    case Known(e) =>
    case Pair(e1, e2) =>
      SortPairMeans((e1, e2));
      forall p ensures p in l.pairs + {SortPair((e1, e2))} <==> InOrder(p) && (Pair(p.0, p.1) in all || Pair(p.1, p.0) in all) {
        SortPairMeans(p);
        assert p == (p.0, p.1);
      }
  }

  lemma {:induction false} AddRecordsMeans(recs: seq<Record>)
    ensures AddRecords(Loaded(0, {}, {}), recs).Some? <==> Loadable(recs)
    ensures Loadable(recs) ==> Holds(recs, AddRecords(Loaded(0, {}, {}), recs).value)
  {
    if recs != [] {
      var init, r := recs[..|recs| - 1], recs[|recs| - 1];
      assert recs == init + [r];
      AddRecordsMeans(init);
      AddRecordsAppend(Loaded(0, {}, {}), init, r);
      if Loadable(init) {
        LoadableStep(init, AddRecords(Loaded(0, {}, {}), init).value, r);
      } else {
        assert forall i :: 0 <= i < |init| ==> recs[i] == init[i];
      }
    }
  }

  /** The text consists of lines of loadable records that amount to this graph. */
  ghost predicate Describes(text: string, lines: seq<string>, recs: seq<Record>, l: Loaded) {
    AreLines(lines) && text == Text(lines) && ReadAs(lines, recs) && Loadable(recs) && Holds(recs, l)
  }

  /** Parsing gives what the text describes, and fails on every text that describes nothing. */
  lemma ParseIsDescription(text: string, l: Loaded)
    ensures Parse(text) == Some(l) <==> exists lines, recs :: Describes(text, lines, recs, l)
  {
    if Parse(text) == Some(l) {
      var lines := Lines(text).value;
      LinesMeans(text, lines);
      var recs := LoadedLinesAreRecords(Loaded(0, {}, {}), lines);
      LinesLoadRecords(Loaded(0, {}, {}), lines, recs);
      AddRecordsMeans(recs);
      assert Describes(text, lines, recs, l);
    }
    if lines, recs :| Describes(text, lines, recs, l) {
      LinesMeans(text, lines);
      LinesLoadRecords(Loaded(0, {}, {}), lines, recs);
      AddRecordsMeans(recs);
      HoldsOnce(recs, l, Parse(text).value);
    }
  }

  /** Loads exactly what the text describes; every loaded pair is in order. */
  method Load(text: string) returns (loaded: Option<Loaded>)
    ensures forall l :: loaded == Some(l) <==> exists lines, recs :: Describes(text, lines, recs, l)
    ensures loaded.Some? ==> forall p :: p in loaded.value.pairs ==> InOrder(p)
    ensures loaded == Parse(text)
  {
    forall l ensures Parse(text) == Some(l) <==> exists lines, recs :: Describes(text, lines, recs, l) {
      ParseIsDescription(text, l);
    }
    var lines := Lines(text);
    if lines.None? {
      return None;
    }
    var now := Loaded(0, {}, {});
    for i := 0 to |lines.value|
      invariant AddLines(now, lines.value[i..]) == Parse(text)
    {
      assert lines.value[i..][0] == lines.value[i] && lines.value[i..][1..] == lines.value[i + 1..];
      var r := ParseLine(lines.value[i]);
      if r.None? {
        return None;
      }
      var next := Add(now, r.value);
      if next.None? {
        return None;
      }
      now := next.value;
    }
    return Some(now);
  }

  // ----- writing

  lemma {:induction false} TextAppend(lines: seq<string>, line: string)
    ensures Text(lines + [line]) == Text(lines) + (line + ['\n'])
  {
    if lines == [] {
      assert (lines + [line])[1..] == [];
    } else {
      assert (lines + [line])[1..] == lines[1..] + [line];
      TextAppend(lines[1..], line);
    }
  }

  ghost function LineTexts(recs: seq<Record>): (lines: seq<string>)
    ensures |lines| == |recs| && forall i :: 0 <= i < |recs| ==> lines[i] == LineText(recs[i])
  {
    seq(|recs|, i requires 0 <= i < |recs| => LineText(recs[i]))
  }

  /** The text has exactly these lines, in this order, and no line twice. */
  ghost predicate Written(text: string, recs: seq<Record>) {
    text == Text(LineTexts(recs)) && forall i, j :: 0 <= i < j < |recs| ==> recs[i] != recs[j]
  }

  lemma WriteLine(text: string, recs: seq<Record>, r: Record)
    requires Written(text, recs) && r !in recs
    ensures Written(text + (LineText(r) + ['\n']), recs + [r])
  {
    TextAppend(LineTexts(recs), LineText(r));
    assert LineTexts(recs + [r]) == LineTexts(recs) + [LineText(r)];
  }

  method OutputRow(g: PolyGraph, src: nat, before: string, ghost recs0: seq<Record>) returns (text: string, ghost recs: seq<Record>)
    requires g.Valid() && src in g.edges && Written(before, recs0) && forall e :: Known(e) in recs0 ==> e.src != src
    ensures Written(text, recs)
    ensures forall r :: r in recs <==> r in recs0 || (r.Known? && r.e in g.Stored() && r.e.src == src)
    ensures recs0 <= recs
  {
    text, recs := before, recs0;
    var row := g.edges[src];
    var targets := row;
    while targets != {}
      invariant targets <= row && Written(text, recs) && recs0 <= recs
      invariant forall r :: r in recs <==> r in recs0 || (r.Known? && r.e in RowEdges(src, row - targets))
    {
      var t :| t in targets;
      var e := Edge(src, t.0, t.1);
      WriteLine(text, recs, Known(e));
      text := text + (LineText(Known(e)) + ['\n']);
      recs := recs + [Known(e)];
      assert RowEdges(src, row - targets) + {e} == RowEdges(src, row - (targets - {t}));
      targets := targets - {t};
    }
    assert row - targets == row;
    assert RowEdges(src, row) == EdgesFrom(g.Stored(), {src});
  }

  method OutputEdges(g: PolyGraph, before: string, ghost recs0: seq<Record>) returns (text: string, ghost recs: seq<Record>)
    requires g.Valid() && Written(before, recs0) && forall r :: r in recs0 ==> r.Nodes?
    ensures Written(text, recs) && recs0 <= recs
    ensures forall r :: r in recs <==> r in recs0 || (r.Known? && r.e in g.Stored())
  {
    text, recs := before, recs0;
    var srcs := g.edges.Keys;
    while srcs != {}
      invariant srcs <= g.edges.Keys && Written(text, recs) && recs0 <= recs
      invariant forall r :: r in recs <==> r in recs0 || (r.Known? && r.e in g.Stored() && r.e.src !in srcs)
    {
      var src :| src in srcs;
      text, recs := OutputRow(g, src, text, recs);
      srcs := srcs - {src};
    }
  }

  method OutputPairs(pairs: set<(Edge, Edge)>, before: string, ghost recs0: seq<Record>) returns (text: string, ghost recs: seq<Record>)
    requires Written(before, recs0) && forall r :: r in recs0 ==> !r.Pair?
    ensures Written(text, recs) && recs0 <= recs
    ensures forall r :: r in recs <==> r in recs0 || (r.Pair? && (r.e1, r.e2) in pairs)
  {
    text, recs := before, recs0;
    var todo := pairs;
    while todo != {}
      invariant todo <= pairs && Written(text, recs) && recs0 <= recs
      invariant forall r :: r in recs <==> r in recs0 || (r.Pair? && (r.e1, r.e2) in pairs - todo)
    {
      var p :| p in todo;
      WriteLine(text, recs, Pair(p.0, p.1));
      text := text + (LineText(Pair(p.0, p.1)) + ['\n']);
      recs := recs + [Pair(p.0, p.1)];
      assert p == (p.0, p.1);
      todo := todo - {p};
    }
  }

  /** A line for the number of nodes, then one for every stored edge and every recorded pair, and no other. */
  ghost predicate Lists(text: string, recs: seq<Record>, n: nat, edges: set<Edge>, pairs: set<(Edge, Edge)>) {
    && Written(text, recs) && recs != [] && recs[0] == Nodes(n)
    && forall r :: r in recs <==> match r
                                  case Nodes(m) => m == n
                                  case Known(e) => e in edges
                                  case Pair(e1, e2) => (e1, e2) in pairs
  }

  lemma ListedIsLoadable(recs: seq<Record>, n: nat)
    requires forall i, j :: 0 <= i < j < |recs| ==> recs[i] != recs[j]
    requires forall r :: r in recs && r.Nodes? ==> r.n == n
    ensures Loadable(recs)
  {
    forall i, j | 0 <= i < j < |recs| ensures !(recs[i].Nodes? && recs[j].Nodes?) {
      assert recs[i] in recs && recs[j] in recs && recs[i] != recs[j];
    }
  }

  lemma ListedIsDescribed(text: string, recs: seq<Record>, n: nat, edges: set<Edge>, pairs: set<(Edge, Edge)>)
    requires Lists(text, recs, n, edges, pairs)
    ensures Parse(text) == Some(Loaded(n, edges, SortPairs(pairs)))
  {
    var l := Loaded(n, edges, SortPairs(pairs));
    forall p ensures p in l.pairs <==> InOrder(p) && (Pair(p.0, p.1) in recs || Pair(p.1, p.0) in recs) {
      SortPairsMeans(pairs, p);
      assert p == (p.0, p.1);
    }
    forall i | 0 <= i < |recs| ensures IsLineOf(LineText(recs[i]), recs[i]) && '\n' !in LineText(recs[i]) {
      ParseOfLine(recs[i]);
      LineIsOneLine(recs[i]);
    }
    assert Holds(recs, l);
    ListedIsLoadable(recs, n);
    assert Describes(text, LineTexts(recs), recs, l);
    ParseIsDescription(text, l);
  }

  lemma LineIsOneLine(r: Record)
    ensures '\n' !in LineText(r)
  {
    match r
    case Nodes(_) =>
    case Known(e) => EdgeTextIsPlain(e);
    case Pair(e1, e2) => EdgeTextIsPlain(e1); EdgeTextIsPlain(e2);
  }

  /** Writes the graph. Loading the text gives back the number of nodes, exactly the stored
      edges, and the pairs in sorted order. */
  method Output(g: PolyGraph) returns (text: string)
    requires g.Valid()
    ensures exists recs :: Lists(text, recs, g.n, g.Stored(), g.pairs)
    ensures Parse(text) == Some(Loaded(g.n, g.Stored(), SortPairs(g.pairs)))
  {
    ghost var recs: seq<Record> := [];
    WriteLine([], recs, Nodes(g.n));
    text := LineText(Nodes(g.n)) + ['\n'];
    assert [] + text == text;
    recs := recs + [Nodes(g.n)];
    text, recs := OutputEdges(g, text, recs);
    text, recs := OutputPairs(g.pairs, text, recs);
    assert Lists(text, recs, g.n, g.Stored(), g.pairs);
    ListedIsDescribed(text, recs, g.n, g.Stored(), g.pairs);
  }

  /** Pairs recorded in one order only do not collide when each is sorted. */
  lemma {:induction false} SortedPairsStayApart(pairs: set<(Edge, Edge)>)
    requires Unmirrored(pairs)
    ensures |SortPairs(pairs)| == |pairs|
    decreases |pairs|
  {
    if p :| p in pairs {
      var rest := pairs - {p};
      SortedPairsStayApart(rest);
      assert SortPairs(pairs) == SortPairs(rest) + {SortPair(p)};
      forall q | q in rest ensures SortPair(q) != SortPair(p) {
        assert q == (q.0, q.1) && p == (p.0, p.1);
      }
    }
  }
}
