/**
 The JSON text of an audit event, as `json.Marshal` writes it, and what the audit chain needs of it: the
 text determines the event, and no such text ends in a colon followed by another such text.
 */
module EventJson {

  predicate NumeralChar(c: char) {
    '0' <= c <= '9' || c == '-' || c == '+' || c == '.' || c == 'e'
  }

  type Numeral = s: string | s != "" && forall i :: 0 <= i < |s| ==> NumeralChar(s[i]) witness "0"

  datatype Json =
    | Null
    | Boolean(truth: bool)
    | Number(numeral: Numeral)
    | String(text: string)
    | List(items: seq<Json>)
    | Object(members: seq<Member>)

  datatype Member = Member(key: string, value: Json)

  /** The time is text here: it prints itself, with its own zone. */
  datatype Event = Event(id: string, timestamp: string, kind: string, actor: string, metadata: Json)

  // --------------------------------------------------------------- printing

  function HexChar(d: nat): char
    requires d < 16
  {
    if d < 10 then ('0' as int + d) as char else ('a' as int + d - 10) as char
  }

  function Hex4(n: nat): (s: string)
    ensures |s| == 4
  {
    [HexChar(n / 4096 % 16), HexChar(n / 256 % 16), HexChar(n / 16 % 16), HexChar(n % 16)]
  }

  predicate NeedsCode(c: char) {
    c < ' ' || c == '<' || c == '>' || c == '&' || c as int == 0x2028 || c as int == 0x2029
  }

  function EscapeChar(c: char): string {
    if c == '"' || c == '\\' then ['\\', c]
    else if c as int == 8 then ['\\', 'b']
    else if c == '\t' then ['\\', 't']
    else if c == '\n' then ['\\', 'n']
    else if c as int == 12 then ['\\', 'f']
    else if c == '\r' then ['\\', 'r']
    else if NeedsCode(c) then ['\\', 'u'] + Hex4(c as int)
    else [c]
  }

  function Escape(s: string): string {
    if s == "" then "" else EscapeChar(s[0]) + Escape(s[1..])
  }

  function Quote(s: string): string {
    "\"" + Escape(s) + "\""
  }

  function Print(v: Json): string {
    match v
    case Null => "null"
    case Boolean(b) => if b then "true" else "false"
    case Number(n) => n
    case String(s) => Quote(s)
    case List(items) => "[" + PrintItems(items) + "]"
    case Object(members) => "{" + PrintMembers(members) + "}"
  }

  function PrintItems(items: seq<Json>): string {
    if items == [] then ""
    else if |items| == 1 then Print(items[0])
    else Print(items[0]) + "," + PrintItems(items[1..])
  }

  function PrintMember(m: Member): string {
    Quote(m.key) + ":" + Print(m.value)
  }

  function PrintMembers(members: seq<Member>): string {
    if members == [] then ""
    else if |members| == 1 then PrintMember(members[0])
    else PrintMember(members[0]) + "," + PrintMembers(members[1..])
  }

  /** `json.Marshal` of an event: its fields in the order of their declaration. */
  function EventMembers(e: Event): seq<Member> {
    [Member("id", String(e.id)), Member("timestamp", String(e.timestamp)), Member("type", String(e.kind)),
     Member("actor", String(e.actor)), Member("metadata", e.metadata)]
  }

  function EncodeEvent(e: Event): string {
    Print(Object(EventMembers(e)))
  }

  /** Characters that a string shows as something else. */
  lemma EscapeExamples()
    ensures EscapeChar('"') == "\\\"" && EscapeChar('\\') == "\\\\" && EscapeChar('\n') == "\\n"
    ensures EscapeChar('\U{0001}') == "\\u0001" && EscapeChar('<') == "\\u003c" && EscapeChar('\U{2028}') == "\\u2028"
    ensures EscapeChar('a') == "a" && EscapeChar('\U{00E4}') == ['\U{00E4}']
  {
    assert Hex4(1) == "0001" && Hex4(60) == "003c" && Hex4(0x2028) == "2028";
  }

  predicate Lower(s: string) {
    forall i :: 0 <= i < |s| ==> 'a' <= s[i] <= 'z'
  }

  lemma {:induction false} LowerIsPlain(s: string)
    requires Lower(s)
    ensures Escape(s) == s
  {
    if s != "" {
      LowerIsPlain(s[1..]);
      assert EscapeChar(s[0]) == [s[0]];
      hide EscapeChar;
      assert [s[0]] + s[1..] == s;
    }
  }

  lemma QuotedWord(s: string)
    requires Lower(s)
    ensures Quote(s) == "\"" + s + "\""
  {
    LowerIsPlain(s);
  }

  /** The text of an event: its five fields by name and in this order, strings quoted, the metadata as it is. */
  lemma EventTextSpelledOut(e: Event)
    ensures EncodeEvent(e) ==
              "{" + ("\"id\":" + Quote(e.id) + ","
                     + ("\"timestamp\":" + Quote(e.timestamp) + ","
                        + ("\"type\":" + Quote(e.kind) + ","
                           + ("\"actor\":" + Quote(e.actor) + ","
                              + ("\"metadata\":" + Print(e.metadata)))))) + "}"
  {
    var ms := EventMembers(e);
    FieldTexts(e);
    FiveMembers(ms);
    EventText(e);
    hide PrintMember, PrintMembers, Print, Quote, EncodeEvent;
  }

  lemma FieldTexts(e: Event)
    ensures var ms := EventMembers(e);
            && PrintMember(ms[0]) == "\"id\":" + Quote(e.id)
            && PrintMember(ms[1]) == "\"timestamp\":" + Quote(e.timestamp)
            && PrintMember(ms[2]) == "\"type\":" + Quote(e.kind)
            && PrintMember(ms[3]) == "\"actor\":" + Quote(e.actor)
            && PrintMember(ms[4]) == "\"metadata\":" + Print(e.metadata)
  {
    StringText(e);
    hide PrintMember, Print, Quote;
    IdText(String(e.id));
    TimestampText(String(e.timestamp));
    TypeText(String(e.kind));
    ActorText(String(e.actor));
    MetadataText(e.metadata);
  }

  lemma IdText(v: Json)
    ensures PrintMember(Member("id", v)) == "\"id\":" + Print(v)
  {
    hide PrintMember, Print;
    FieldText("id", v, "\"id\":");
  }

  lemma TimestampText(v: Json)
    ensures PrintMember(Member("timestamp", v)) == "\"timestamp\":" + Print(v)
  {
    hide PrintMember, Print;
    FieldText("timestamp", v, "\"timestamp\":");
  }

  lemma TypeText(v: Json)
    ensures PrintMember(Member("type", v)) == "\"type\":" + Print(v)
  {
    hide PrintMember, Print;
    FieldText("type", v, "\"type\":");
  }

  lemma ActorText(v: Json)
    ensures PrintMember(Member("actor", v)) == "\"actor\":" + Print(v)
  {
    hide PrintMember, Print;
    FieldText("actor", v, "\"actor\":");
  }

  lemma MetadataText(v: Json)
    ensures PrintMember(Member("metadata", v)) == "\"metadata\":" + Print(v)
  {
    hide PrintMember, Print;
    FieldText("metadata", v, "\"metadata\":");
  }

  lemma StringText(e: Event)
    ensures Print(String(e.id)) == Quote(e.id) && Print(String(e.timestamp)) == Quote(e.timestamp)
    ensures Print(String(e.kind)) == Quote(e.kind) && Print(String(e.actor)) == Quote(e.actor)
  {
    hide Quote;
  }

  lemma FieldText(name: string, v: Json, head: string)
    requires Lower(name) && head == "\"" + name + "\":"
    ensures PrintMember(Member(name, v)) == head + Print(v)
  {
    QuotedWord(name);
    hide Quote, Print, Lower;
  }

  lemma FiveMembers(ms: seq<Member>)
    requires |ms| == 5
    ensures PrintMembers(ms) == PrintMember(ms[0]) + "," + (PrintMember(ms[1]) + "," + (PrintMember(ms[2]) + "," + (PrintMember(ms[3]) + "," + PrintMember(ms[4]))))
  {
    hide PrintMember;
    assert ms[1..][1..] == ms[2..] && ms[2..][1..] == ms[3..] && ms[3..][1..] == ms[4..];
    assert PrintMembers(ms[4..]) == PrintMember(ms[4]);
    assert PrintMembers(ms[3..]) == PrintMember(ms[3]) + "," + PrintMembers(ms[4..]);
    assert PrintMembers(ms[2..]) == PrintMember(ms[2]) + "," + PrintMembers(ms[3..]);
    assert PrintMembers(ms[1..]) == PrintMember(ms[1]) + "," + PrintMembers(ms[2..]);
  }

  // --------------------------------------------------------- a reader of text

  /** Where a reader of compact JSON stands: the open brackets, and whether it is inside a string. */
  datatype Reader =
    | Outside(depth: nat)
    | AfterString(depth: nat)
    | Inside(depth: nat)
    | Escaped(depth: nat)
    | Done
    | Bad

  function Close(depth: nat): Reader {
    if depth == 0 then Bad else if depth == 1 then Done else Outside(depth - 1)
  }

  /** A string is followed by a comma, a colon or a bracket, and the last bracket by nothing. */
  function Read(r: Reader, c: char): Reader {
    match r
    case Outside(d) =>
      if c == '"' then Inside(d)
      else if c == '{' || c == '[' then Outside(d + 1)
      else if c == '}' || c == ']' then Close(d)
      else Outside(d)
    case AfterString(d) =>
      if c == ',' || c == ':' then Outside(d) else if c == '}' || c == ']' then Close(d) else Bad
    case Inside(d) => if c == '"' then AfterString(d) else if c == '\\' then Escaped(d) else Inside(d)
    case Escaped(d) => Inside(d)
    case Done => Bad
    case Bad => Bad
  }

  function Scan(r: Reader, s: string): Reader
    decreases |s|
  {
    if s == "" then r else Scan(Read(r, s[0]), s[1..])
  }

  lemma {:induction false} ScanAppend(r: Reader, s: string, t: string)
    ensures Scan(r, s + t) == Scan(Scan(r, s), t)
    decreases |s|
  {
    hide Read;
    if s == "" {
      assert s + t == t;
    } else {
      assert (s + t)[1..] == s[1..] + t;
      ScanAppend(Read(r, s[0]), s[1..], t);
    }
  }

  lemma ScanChar(r: Reader, c: char)
    ensures Scan(r, [c]) == Read(r, c)
  {
  }

  // ------------------------------------------------------ reading what is printed

  lemma {:induction false} ScanPlain(r: Reader, s: string)
    requires forall i :: 0 <= i < |s| ==> Read(r, s[i]) == r
    ensures Scan(r, s) == r
  {
    hide Read;
    if s != "" { ScanPlain(r, s[1..]); }
  }

  lemma ScanEscapeChar(d: nat, c: char)
    ensures Scan(Inside(d), EscapeChar(c)) == Inside(d)
  {
    if |EscapeChar(c)| == 1 {
      ScanChar(Inside(d), c);
    } else {
      var rest := EscapeChar(c)[1..];
      ScanPlain(Inside(d), rest[1..]);
    }
  }

  lemma {:induction false} ScanEscape(d: nat, s: string)
    ensures Scan(Inside(d), Escape(s)) == Inside(d)
  {
    hide EscapeChar, Read;
    if s != "" {
      ScanEscapeChar(d, s[0]);
      ScanEscape(d, s[1..]);
      ScanAppend(Inside(d), EscapeChar(s[0]), Escape(s[1..]));
    }
  }

  lemma ScanQuote(d: nat, s: string)
    ensures Scan(Outside(d), Quote(s)) == AfterString(d)
  {
    hide Escape;
    ScanChar(Outside(d), '"');
    ScanEscape(d, s);
    ScanChar(Inside(d), '"');
    ScanAppend(Outside(d), "\"", Escape(s));
    ScanAppend(Outside(d), "\"" + Escape(s), "\"");
  }

  /** The reader has read a whole value, with as many brackets open as before. */
  predicate After(r: Reader, d: nat) {
    r == Outside(d) || r == AfterString(d)
  }

  lemma {:induction false} ScanValue(d: nat, v: Json)
    requires d > 0
    ensures After(Scan(Outside(d), Print(v)), d)
    decreases v
  {
    match v {
      case Null => ScanPlain(Outside(d), "null");
      case Boolean(b) => ScanPlain(Outside(d), if b then "true" else "false");
      case Number(n) => ScanPlain(Outside(d), n);
      case String(s) => ScanQuote(d, s);
      case List(items) =>
        ScanItems(d + 1, items);
        ScanBrackets(d, '[', PrintItems(items), ']');
      case Object(members) =>
        ScanMembers(d + 1, members);
        ScanBrackets(d, '{', PrintMembers(members), '}');
    }
  }

  lemma ScanBrackets(d: nat, open: char, s: string, close: char)
    requires (open == '[' || open == '{') && (close == ']' || close == '}')
    requires After(Scan(Outside(d + 1), s), d + 1)
    ensures Scan(Outside(d), [open] + s + [close]) == Close(d + 1)
  {
    ScanChar(Outside(d), open);
    ScanAppend(Outside(d), [open], s);
    ScanAppend(Outside(d), [open] + s, [close]);
    ScanChar(Scan(Outside(d + 1), s), close);
  }

  lemma ScanComma(d: nat, s: string, t: string)
    requires After(Scan(Outside(d), s), d)
    ensures Scan(Outside(d), s + "," + t) == Scan(Outside(d), t)
  {
    ScanAppend(Outside(d), s, ",");
    ScanChar(Scan(Outside(d), s), ',');
    ScanAppend(Outside(d), s + ",", t);
  }

  lemma {:induction false} ScanItems(d: nat, items: seq<Json>)
    requires d > 0
    ensures After(Scan(Outside(d), PrintItems(items)), d)
    decreases items
  {
    if items != [] {
      ScanValue(d, items[0]);
      if |items| > 1 {
        ScanItems(d, items[1..]);
        ScanComma(d, Print(items[0]), PrintItems(items[1..]));
      }
    }
  }

  lemma {:induction false} ScanMembers(d: nat, members: seq<Member>)
    requires d > 0
    ensures After(Scan(Outside(d), PrintMembers(members)), d)
    decreases members
  {
    if members != [] {
      var m := members[0];
      ScanValue(d, m.value);
      ScanMember(d, m);
      if |members| > 1 {
        ScanMembers(d, members[1..]);
        ScanComma(d, PrintMember(m), PrintMembers(members[1..]));
      }
    }
  }

  lemma ScanMember(d: nat, m: Member)
    requires After(Scan(Outside(d), Print(m.value)), d)
    ensures After(Scan(Outside(d), PrintMember(m)), d)
  {
    hide Quote, Print;
    ScanQuote(d, m.key);
    ScanAppend(Outside(d), Quote(m.key), ":");
    ScanChar(AfterString(d), ':');
    ScanAppend(Outside(d), Quote(m.key) + ":", Print(m.value));
  }

  // ------------------------------------------------------------ no event in a tail

  /** Once something is open, nothing brings the reader back to the start. */
  predicate Started(r: Reader) {
    r.Done? || r.Bad? || r.depth > 0
  }

  lemma {:induction false} StaysStarted(r: Reader, s: string)
    requires Started(r)
    ensures Started(Scan(r, s))
    decreases |s|
  {
    if s != "" { StaysStarted(Read(r, s[0]), s[1..]); }
  }

  lemma {:induction false} StaysBad(s: string)
    ensures Scan(Bad, s) == Bad
  {
    if s != "" { StaysBad(s[1..]); }
  }

  /** An event's text is read to its end, where its last bracket closes, and inside another value as a value. */
  lemma ScanEvent(d: nat, e: Event)
    ensures Scan(Outside(d), EncodeEvent(e)) == if d == 0 then Done else Outside(d)
  {
    hide PrintMembers;
    ScanMembers(d + 1, EventMembers(e));
    ScanBrackets(d, '{', PrintMembers(EventMembers(e)), '}');
  }

  lemma QuotedId()
    ensures Quote("id") == "\"id\""
  {
    assert "id"[1..] == "d" && "d"[1..] == "";
    assert Escape("d") == "d";
  }

  /** How an event's text begins. */
  lemma EventStarts(e: Event) returns (rest: string)
    ensures EncodeEvent(e) == "{\"i" + rest
  {
    var members := EventMembers(e);
    QuotedId();
    hide Print, Quote, PrintMembers;
    var body := PrintMembers(members);
    assert body[..2] == "\"i" by { MembersStart(members); }
    rest := body[2..] + "}";
    EventText(e);
    assert "{" + body + "}" == "{\"i" + rest;
  }

  lemma EventText(e: Event)
    ensures EncodeEvent(e) == "{" + PrintMembers(EventMembers(e)) + "}"
  {
    hide PrintMembers;
  }

  lemma MembersStart(members: seq<Member>)
    requires members != []
    ensures Quote(members[0].key) <= PrintMembers(members)
  {
    hide Quote, Print;
  }

  /** Read after a colon in the middle of a text, an event's text does not end that text. */
  lemma ScanEventElsewhere(r: Reader, f: Event)
    requires Started(r) && !r.Escaped?
    ensures Scan(r, EncodeEvent(f)) != Done
  {
    hide EncodeEvent;
    if r.Outside? {
      ScanEvent(r.depth, f);
    } else {
      var rest := EventStarts(f);
      ScanAppend(r, "{\"i", rest);
      StaysBad(rest);
      assert Scan(r, "{\"i") == Bad by {
        assert "{\"i"[1..] == "\"i" && "\"i"[1..] == "i";
        ScanChar(Read(Read(r, '{'), '"'), 'i');
      }
    }
  }

  /** No event's text ends in a colon followed by an event's text. */
  lemma NoEventInTail(e: Event, f: Event, q: string)
    ensures EncodeEvent(e) != q + ":" + EncodeEvent(f)
  {
    var text := q + ":" + EncodeEvent(f);
    if EncodeEvent(e) == text {
      ScanEvent(0, e);
      var rest := EventStarts(e);
      hide EncodeEvent, Scan;
      assert text[0] == '{';
      assert q != "";
      ReaderAtColon(q);
      ScanAppend(Outside(0), q + ":", EncodeEvent(f));
      ScanEventElsewhere(Scan(Outside(0), q + ":"), f);
    }
  }

  lemma ReaderAtColon(q: string)
    requires q != "" && q[0] == '{'
    ensures var r := Scan(Outside(0), q + ":"); Started(r) && !r.Escaped?
  {
    var before := q + ":";
    assert Scan(Outside(0), before) == Scan(Outside(1), before[1..]);
    StaysStarted(Outside(1), before[1..]);
    ScanAppend(Outside(0), q, ":");
    ScanChar(Scan(Outside(0), q), ':');
  }

  // ------------------------------------------------------ the text determines the event

  /** What can follow a value inside a text. */
  predicate Ends(s: string) {
    s == "" || s[0] == ',' || s[0] == ']' || s[0] == '}'
  }

  lemma SplitSame(a: string, b: string, s: string, t: string)
    requires a + s == b + t && |a| == |b|
    ensures a == b && s == t
  {
    assert a == (a + s)[..|a|] && b == (b + t)[..|a|];
    assert s == (a + s)[|a|..] && t == (b + t)[|a|..];
  }

  lemma CharBeyond(a: string, b: string, s: string, t: string)
    requires a + s == b + t && |a| < |b|
    ensures s != "" && s[0] == b[|a|]
  {
    assert (a + s)[|a|] == (b + t)[|a|];
  }

  lemma NumeralIsMaximal(a: Numeral, b: Numeral, s: string, t: string)
    requires a + s == b + t && Ends(s)
    ensures |a| >= |b|
  {
    if |a| < |b| { CharBeyond(a, b, s, t); }
  }

  lemma Hex4Injective(m: nat, n: nat)
    requires m < 0x10000 && n < 0x10000 && Hex4(m) == Hex4(n)
    ensures m == n
  {
    hide HexChar;
    assert Hex4(m)[0] == Hex4(n)[0] && Hex4(m)[1] == Hex4(n)[1];
    assert Hex4(m)[2] == Hex4(n)[2] && Hex4(m)[3] == Hex4(n)[3];
    hide Hex4;
    HexCharInjective(m / 4096 % 16, n / 4096 % 16);
    HexCharInjective(m / 256 % 16, n / 256 % 16);
    HexCharInjective(m / 16 % 16, n / 16 % 16);
    HexCharInjective(m % 16, n % 16);
    Nibbles(m);
    Nibbles(n);
  }

  lemma Nibbles(n: nat)
    requires n < 0x10000
    ensures n == 4096 * (n / 4096 % 16) + 256 * (n / 256 % 16) + 16 * (n / 16 % 16) + n % 16
  {
    LowNibble(n, 1);
    LowNibble(n, 16);
    LowNibble(n, 256);
    assert n / 4096 < 16;
  }

  lemma LowNibble(n: nat, k: nat)
    requires k == 1 || k == 16 || k == 256
    ensures n / k == 16 * (n / (16 * k)) + n / k % 16
  {
  }

  lemma HexCharInjective(d: nat, e: nat)
    requires d < 16 && e < 16
    ensures HexChar(d) == HexChar(e) ==> d == e
  {
  }

  lemma EscapeCharUnique(c: char, d: char, s: string, t: string)
    requires EscapeChar(c) + s == EscapeChar(d) + t
    ensures c == d && s == t
  {
    hide Hex4;
    var a, b := EscapeChar(c) + s, EscapeChar(d) + t;
    assert a[0] == EscapeChar(c)[0] && b[0] == EscapeChar(d)[0];
    if |EscapeChar(c)| > 1 && |EscapeChar(d)| > 1 {
      assert a[1] == EscapeChar(c)[1] && b[1] == EscapeChar(d)[1];
    }
    SplitSame(EscapeChar(c), EscapeChar(d), s, t);
    if |EscapeChar(c)| == 6 {
      assert EscapeChar(c)[2..] == Hex4(c as int) && EscapeChar(d)[2..] == Hex4(d as int);
      Hex4Injective(c as int, d as int);
    }
  }

  lemma EscapeUnfolds(a: string, s: string)
    requires a != ""
    ensures Escape(a) + s == EscapeChar(a[0]) + (Escape(a[1..]) + s)
  {
    hide EscapeChar;
  }

  lemma EscapeIsNotQuote(a: string, s: string, t: string)
    requires a != ""
    ensures Escape(a) + s != "\"" + t
  {
    EscapeUnfolds(a, s);
    hide Escape;
    assert (EscapeChar(a[0]) + (Escape(a[1..]) + s))[0] == EscapeChar(a[0])[0];
  }

  lemma {:induction false} EscapeUnique(a: string, b: string, s: string, t: string)
    requires Escape(a) + ("\"" + s) == Escape(b) + ("\"" + t)
    ensures a == b && s == t
    decreases |a|
  {
    if a == "" {
      assert Escape(a) + ("\"" + s) == "\"" + s;
      if b == "" {
        assert Escape(b) + ("\"" + t) == "\"" + t;
        SplitSame("\"", "\"", s, t);
      } else {
        EscapeIsNotQuote(b, "\"" + t, s);
      }
    } else if b == "" {
      assert Escape(b) + ("\"" + t) == "\"" + t;
      EscapeIsNotQuote(a, "\"" + s, t);
    } else {
      EscapeUnfolds(a, "\"" + s);
      EscapeUnfolds(b, "\"" + t);
      hide EscapeChar, Escape;
      EscapeCharUnique(a[0], b[0], Escape(a[1..]) + ("\"" + s), Escape(b[1..]) + ("\"" + t));
      EscapeUnique(a[1..], b[1..], s, t);
      assert a == [a[0]] + a[1..] && b == [b[0]] + b[1..];
    }
  }

  lemma QuoteUnique(a: string, b: string, s: string, t: string)
    requires Quote(a) + s == Quote(b) + t
    ensures a == b && s == t
  {
    hide Escape;
    assert Quote(a) + s == "\"" + (Escape(a) + ("\"" + s));
    assert Quote(b) + t == "\"" + (Escape(b) + ("\"" + t));
    SplitSame("\"", "\"", Escape(a) + ("\"" + s), Escape(b) + ("\"" + t));
    EscapeUnique(a, b, s, t);
  }

  /** The first character tells what kind of value follows. */
  function Kind(v: Json): nat {
    match v
    case Null => 0
    case Boolean(b) => if b then 1 else 2
    case Number(_) => 3
    case String(_) => 4
    case List(_) => 5
    case Object(_) => 6
  }

  function KindOfChar(c: char): nat {
    if c == 'n' then 0 else if c == 't' then 1 else if c == 'f' then 2
    else if NumeralChar(c) then 3 else if c == '"' then 4 else if c == '[' then 5 else if c == '{' then 6 else 7
  }

  lemma FirstChar(v: Json)
    ensures Print(v) != "" && KindOfChar(Print(v)[0]) == Kind(v)
  {
    hide Escape;
  }

  lemma SameKind(v: Json, w: Json, s: string, t: string)
    requires Print(v) + s == Print(w) + t
    ensures Kind(v) == Kind(w)
  {
    FirstChar(v);
    FirstChar(w);
    hide Print, KindOfChar;
    assert (Print(v) + s)[0] == Print(v)[0] && (Print(w) + t)[0] == Print(w)[0];
  }

  /** A value's text, where a value can end, determines the value and where it ends. */
  lemma {:induction false} ValueUnique(v: Json, w: Json, s: string, t: string)
    requires Print(v) + s == Print(w) + t && Ends(s) && Ends(t)
    ensures v == w && s == t
    decreases v, 0
  {
    SameKind(v, w, s, t);
    match v {
      case Null => SplitSame(Print(v), Print(w), s, t);
      case Boolean(_) => SplitSame(Print(v), Print(w), s, t);
      case Number(n) =>
        NumeralIsMaximal(n, w.numeral, s, t);
        NumeralIsMaximal(w.numeral, n, t, s);
        SplitSame(n, w.numeral, s, t);
      case String(a) => QuoteUnique(a, w.text, s, t);
      case List(items) =>
        hide PrintItems;
        Unbracket("[", PrintItems(items), "]", s);
        Unbracket("[", PrintItems(w.items), "]", t);
        SplitSame("[", "[", PrintItems(items) + ("]" + s), PrintItems(w.items) + ("]" + t));
        ItemsUnique(items, w.items, s, t);
      case Object(members) =>
        hide PrintMembers;
        Unbracket("{", PrintMembers(members), "}", s);
        Unbracket("{", PrintMembers(w.members), "}", t);
        SplitSame("{", "{", PrintMembers(members) + ("}" + s), PrintMembers(w.members) + ("}" + t));
        MembersUnique(members, w.members, s, t);
    }
  }

  lemma Unbracket(open: string, body: string, close: string, s: string)
    ensures open + body + close + s == open + (body + (close + s))
  {
  }

  function ItemsTail(items: seq<Json>): string {
    if |items| <= 1 then "" else "," + PrintItems(items[1..])
  }

  function MembersTail(members: seq<Member>): string {
    if |members| <= 1 then "" else "," + PrintMembers(members[1..])
  }

  lemma ItemsHeadTail(items: seq<Json>, end: string)
    requires items != []
    ensures PrintItems(items) + end == Print(items[0]) + (ItemsTail(items) + end)
  {
    hide Print;
  }

  lemma MembersHeadTail(members: seq<Member>, end: string)
    requires members != []
    ensures PrintMembers(members) + end == PrintMember(members[0]) + (MembersTail(members) + end)
  {
    hide PrintMember;
  }

  lemma SameTail(a: string, b: string, s: string, t: string, close: char)
    requires close == ']' || close == '}'
    requires (a == "" || a[0] == ',') && (b == "" || b[0] == ',')
    requires a + ([close] + s) == b + ([close] + t)
    ensures a == "" <==> b == ""
    ensures a != "" ==> a[1..] + ([close] + s) == b[1..] + ([close] + t)
    ensures a == "" ==> s == t
  {
    var x, y := a + ([close] + s), b + ([close] + t);
    assert x[0] == (if a == "" then close else ',') && y[0] == (if b == "" then close else ',');
    if a == "" {
      assert x[1..] == s && y[1..] == t;
    } else {
      assert x[1..] == a[1..] + ([close] + s) && y[1..] == b[1..] + ([close] + t);
    }
  }

  /** A list with a first item is not an empty one. */
  lemma ItemsAreNotEmpty(items: seq<Json>, s: string, t: string)
    requires items != []
    ensures PrintItems(items) + s != "]" + t
  {
    ItemsHeadTail(items, s);
    FirstChar(items[0]);
    hide Print, PrintItems, ItemsTail;
    assert (Print(items[0]) + (ItemsTail(items) + s))[0] == Print(items[0])[0];
  }

  lemma {:induction false} ItemsUnique(a: seq<Json>, b: seq<Json>, s: string, t: string)
    requires PrintItems(a) + ("]" + s) == PrintItems(b) + ("]" + t)
    ensures a == b && s == t
    decreases a
  {
    if a == [] {
      assert PrintItems(a) + ("]" + s) == "]" + s;
      if b == [] {
        assert PrintItems(b) + ("]" + t) == "]" + t;
        SplitSame("]", "]", s, t);
      } else {
        ItemsAreNotEmpty(b, "]" + t, s);
      }
    } else if b == [] {
      assert PrintItems(b) + ("]" + t) == "]" + t;
      ItemsAreNotEmpty(a, "]" + s, t);
    } else {
      ItemsHeadTail(a, "]" + s);
      ItemsHeadTail(b, "]" + t);
      ValueUnique(a[0], b[0], ItemsTail(a) + ("]" + s), ItemsTail(b) + ("]" + t));
      SameTail(ItemsTail(a), ItemsTail(b), s, t, ']');
      if |a| > 1 {
        assert ItemsTail(a)[1..] == PrintItems(a[1..]) && ItemsTail(b)[1..] == PrintItems(b[1..]);
        ItemsUnique(a[1..], b[1..], s, t);
      }
      assert a == [a[0]] + a[1..] && b == [b[0]] + b[1..];
    }
  }

  lemma MembersAreNotEmpty(members: seq<Member>, s: string, t: string)
    requires members != []
    ensures PrintMembers(members) + s != "}" + t
  {
    MembersHeadTail(members, s);
    hide Print, PrintMembers, MembersTail;
    assert (PrintMember(members[0]) + (MembersTail(members) + s))[0] == '"';
  }

  lemma {:induction false} MembersUnique(a: seq<Member>, b: seq<Member>, s: string, t: string)
    requires PrintMembers(a) + ("}" + s) == PrintMembers(b) + ("}" + t)
    ensures a == b && s == t
    decreases a
  {
    if a == [] {
      assert PrintMembers(a) + ("}" + s) == "}" + s;
      if b == [] {
        assert PrintMembers(b) + ("}" + t) == "}" + t;
        SplitSame("}", "}", s, t);
      } else {
        MembersAreNotEmpty(b, "}" + t, s);
      }
    } else if b == [] {
      assert PrintMembers(b) + ("}" + t) == "}" + t;
      MembersAreNotEmpty(a, "}" + s, t);
    } else {
      MembersSplit(a, b, s, t);
      MembersTailStarts(a);
      MembersTailStarts(b);
      hide PrintMembers, PrintMember, MembersTail, Ends;
      MemberUnique(a[0], b[0], MembersTail(a) + ("}" + s), MembersTail(b) + ("}" + t));
      SameTail(MembersTail(a), MembersTail(b), s, t, '}');
      if |a| > 1 { MembersUnique(a[1..], b[1..], s, t); }
      assert a == [a[0]] + a[1..] && b == [b[0]] + b[1..];
    }
  }

  lemma MembersSplit(a: seq<Member>, b: seq<Member>, s: string, t: string)
    requires a != [] && b != [] && PrintMembers(a) + ("}" + s) == PrintMembers(b) + ("}" + t)
    ensures PrintMember(a[0]) + (MembersTail(a) + ("}" + s)) == PrintMember(b[0]) + (MembersTail(b) + ("}" + t))
    ensures Ends(MembersTail(a) + ("}" + s)) && Ends(MembersTail(b) + ("}" + t))
  {
    MembersHeadTail(a, "}" + s);
    MembersHeadTail(b, "}" + t);
    hide PrintMembers, PrintMember;
  }

  lemma MembersTailStarts(ms: seq<Member>)
    ensures MembersTail(ms) == "" <==> |ms| <= 1
    ensures |ms| > 1 ==> MembersTail(ms)[0] == ',' && MembersTail(ms)[1..] == PrintMembers(ms[1..])
  {
    hide PrintMembers;
  }

  lemma MemberText(m: Member, s: string)
    ensures PrintMember(m) + s == Quote(m.key) + (":" + (Print(m.value) + s))
  {
    hide Quote, Print;
  }

  lemma {:induction false} MemberUnique(m: Member, n: Member, s: string, t: string)
    requires PrintMember(m) + s == PrintMember(n) + t && Ends(s) && Ends(t)
    ensures m == n && s == t
    decreases m
  {
    hide Quote, Print;
    MemberText(m, s);
    MemberText(n, t);
    hide PrintMember;
    QuoteUnique(m.key, n.key, ":" + (Print(m.value) + s), ":" + (Print(n.value) + t));
    SplitSame(":", ":", Print(m.value) + s, Print(n.value) + t);
    ValueUnique(m.value, n.value, s, t);
  }

  /** Different events have different texts. */
  lemma EventTextUnique(e: Event, f: Event)
    requires EncodeEvent(e) == EncodeEvent(f)
    ensures e == f
  {
    hide Print;
    assert EncodeEvent(e) + "" == EncodeEvent(f) + "";
    ValueUnique(Object(EventMembers(e)), Object(EventMembers(f)), "", "");
    var a, b := EventMembers(e), EventMembers(f);
    assert a[0] == b[0] && a[1] == b[1] && a[2] == b[2] && a[3] == b[3] && a[4] == b[4];
  }
}
