/** The configuration text format as functions: reading it line by line, printing it, looking values up. */
module Ini {
  import opened Wrappers
  import Sequences

  const MAX_SECTIONS := 16
  const MAX_KEYS := 32
  const KEY_LEN := 64
  const VAL_LEN := 128

  datatype Pair = Pair(key: string, val: string)
  datatype Section = Section(name: string, entries: seq<Pair>)

  predicate Blank(c: char) { c == ' ' || c == '\t' }

  // ---- Reading ----

  function SkipBlanks(s: string): (r: string)
    ensures |r| <= |s|
  {
    if s != "" && Blank(s[0]) then SkipBlanks(s[1..]) else s
  }

  /** What remains from the next newline on. */
  function ToNewline(s: string): (r: string)
    ensures |r| <= |s|
    ensures s != "" && s[0] != '\n' ==> |r| < |s|
  {
    if s != "" && s[0] != '\n' then ToNewline(s[1..]) else s
  }

  /** Length of a section name, at most `room`. */
  function NameLength(s: string, room: nat): (n: nat)
    ensures n <= |s|
  {
    if s == "" || s[0] == ']' || s[0] == '\n' || room == 0 then 0 else 1 + NameLength(s[1..], room - 1)
  }

  datatype Scan = Scan(text: string, rest: string)

  /** Reads a key: up to '=', the line's end, 63 characters, or a blank, which it consumes. */
  function ScanKey(s: string, key: string): (r: Scan)
    ensures |r.rest| <= |s|
    decreases |s|
  {
    if s == "" || s[0] == '=' || s[0] == '\n' || |key| >= KEY_LEN - 1 then Scan(key, s)
    else if !Blank(s[0]) then ScanKey(s[1..], key + [s[0]])
    else if key != "" then Scan(key, s[1..])
    else ScanKey(s[1..], key)
  }

  /** Length of a value, at most `room`. */
  function ValLength(s: string, room: nat): (n: nat)
    ensures n <= |s|
  {
    if s == "" || s[0] == '\n' || s[0] == '\r' || room == 0 then 0 else 1 + ValLength(s[1..], room - 1)
  }

  function TrimEnd(v: string): string {
    if v != "" && Blank(v[|v| - 1]) then TrimEnd(v[..|v| - 1]) else v
  }

  /** The sections with a pair added to the last one. */
  function AddPair(cfg: seq<Section>, p: Pair): seq<Section>
    requires cfg != []
  {
    var n := |cfg| - 1;
    cfg[n := Section(cfg[n].name, cfg[n].entries + [p])]
  }

  /** A line that is neither empty, comment nor header: its sections and the rest of the text. */
  function KeyLine(cfg: seq<Section>, t: string): (r: (seq<Section>, string))
    ensures r.0 != [] && |r.1| <= |t|
    ensures t != "" && t[0] != '\n' ==> |r.1| < |t|
  {
    var cfg1 := if cfg == [] then [Section("global", [])] else cfg;
    if |cfg1[|cfg1| - 1].entries| >= MAX_KEYS then (cfg1, ToNewline(t))
    else
      var k := ScanKey(t, "");
      if k.rest != "" && k.rest[0] == '=' then
        var v := SkipBlanks(k.rest[1..]);
        var n := ValLength(v, VAL_LEN - 1);
        var val := TrimEnd(v[..n]);
        ((if k.text != "" then AddPair(cfg1, Pair(k.text, val)) else cfg1), ToNewline(v[n..]))
      else
        ScanKeyMoves(t, "");
        (cfg1, ToNewline(k.rest))
  }

  lemma {:induction false} ScanKeyMoves(s: string, key: string)
    ensures |ScanKey(s, key).rest| <= |s|
    ensures s != "" && s[0] != '\n' && s[0] != '=' && |key| < KEY_LEN - 1 ==> |ScanKey(s, key).rest| < |s|
  {
  }

  /** One turn of the parser on a non-empty text. */
  function Step(cfg: seq<Section>, s: string): (r: (seq<Section>, string))
    requires s != ""
    ensures |r.1| < |s|
  {
    var t := SkipBlanks(s);
    if t == "" then KeyLine(cfg, t)
    else if t[0] == '\n' || t[0] == '\r' then (cfg, t[1..])
    else if t[0] == '#' || t[0] == ';' then (cfg, ToNewline(t))
    else if t[0] == '[' then
      var u := t[1..];
      if |cfg| >= MAX_SECTIONS then (cfg, ToNewline(u))
      else
        var n := NameLength(u, KEY_LEN - 1);
        (cfg + [Section(u[..n], [])], ToNewline(u[n..]))
    else KeyLine(cfg, t)
  }

  /** The sections read from a text after `cfg`. */
  function ParseAll(cfg: seq<Section>, s: string): seq<Section>
    decreases |s|
  {
    if s == "" then cfg else var r := Step(cfg, s); ParseAll(r.0, r.1)
  }

  // ---- Printing ----

  function Entries(es: seq<Pair>): string {
    if es == [] then "" else es[0].key + ("=" + (es[0].val + ("\n" + Entries(es[1..]))))
  }

  function Header(name: string): string {
    if name == "global" then "" else "[" + (name + "]\n")
  }

  function Text(cfg: seq<Section>): string {
    if cfg == [] then "" else Header(cfg[0].name) + (Entries(cfg[0].entries) + ("\n" + Text(cfg[1..])))
  }

  // ---- Well-formed configurations ----

  predicate LegalKey(k: string) {
    && 0 < |k| < KEY_LEN && k[0] != '#' && k[0] != ';' && k[0] != '[' && k[0] != '\r'
    && forall i | 0 <= i < |k| :: k[i] != '=' && k[i] != '\n' && !Blank(k[i])
  }

  predicate LegalVal(v: string) {
    && |v| < VAL_LEN && (forall i | 0 <= i < |v| :: v[i] != '\n' && v[i] != '\r')
    && (v != "" ==> !Blank(v[0]) && !Blank(v[|v| - 1]))
  }

  predicate LegalName(n: string) {
    |n| < KEY_LEN && forall i | 0 <= i < |n| :: n[i] != ']' && n[i] != '\n'
  }

  predicate LegalPair(p: Pair) { LegalKey(p.key) && LegalVal(p.val) }

  predicate LegalEntries(es: seq<Pair>) {
    |es| <= MAX_KEYS && forall i | 0 <= i < |es| :: LegalPair(es[i])
  }

  predicate LegalSection(s: Section) { LegalName(s.name) && LegalEntries(s.entries) }

  /** Legal sections, `global` only as a non-empty first one. */
  predicate WellFormed(cfg: seq<Section>) {
    && |cfg| <= MAX_SECTIONS
    && forall i | 0 <= i < |cfg| ::
      LegalSection(cfg[i]) && (cfg[i].name == "global" ==> i == 0 && cfg[i].entries != [])
  }

  // ---- Reading back what was printed ----

  lemma {:induction false} ScanKeyReads(k: string, tail: string, done: string)
    requires |done| + |k| < KEY_LEN && tail != "" && tail[0] == '='
    requires forall i | 0 <= i < |k| :: k[i] != '=' && k[i] != '\n' && !Blank(k[i])
    ensures ScanKey(k + tail, done) == Scan(done + k, tail)
    decreases |k|
  {
    if k == "" {
      assert k + tail == tail && done + k == done;
    } else {
      assert (k + tail)[0] == k[0] && (k + tail)[1..] == k[1..] + tail;
      ScanKeyReads(k[1..], tail, done + [k[0]]);
      assert done + [k[0]] + k[1..] == done + k;
    }
  }

  lemma {:induction false} ValLengthReads(v: string, tail: string, room: nat)
    requires |v| <= room && tail != "" && tail[0] == '\n'
    requires forall i | 0 <= i < |v| :: v[i] != '\n' && v[i] != '\r'
    ensures ValLength(v + tail, room) == |v|
  {
    if v == "" {
      assert v + tail == tail;
    } else {
      assert (v + tail)[0] == v[0] && (v + tail)[1..] == v[1..] + tail;
      ValLengthReads(v[1..], tail, room - 1);
    }
  }

  lemma {:induction false} NameLengthReads(n: string, tail: string, room: nat)
    requires |n| <= room && tail != "" && tail[0] == ']'
    requires forall i | 0 <= i < |n| :: n[i] != ']' && n[i] != '\n'
    ensures NameLength(n + tail, room) == |n|
  {
    if n == "" {
      assert n + tail == tail;
    } else {
      assert (n + tail)[0] == n[0] && (n + tail)[1..] == n[1..] + tail;
      NameLengthReads(n[1..], tail, room - 1);
    }
  }

  /** A printed pair read as a key line. */
  lemma {:induction false} KeyLineReads(cfg: seq<Section>, p: Pair, tail: string)
    requires LegalPair(p) && (cfg != [] ==> |cfg[|cfg| - 1].entries| < MAX_KEYS) && tail != "" && tail[0] == '\n'
    ensures KeyLine(cfg, p.key + ("=" + (p.val + tail)))
            == (AddPair(if cfg == [] then [Section("global", [])] else cfg, p), tail)
  {
    var eq := "=" + (p.val + tail);
    ScanKeyReads(p.key, eq, "");
    assert "" + p.key == p.key;
    assert eq[1..] == p.val + tail;
    ValueReads(p.val, tail);
    KeyLineIs(cfg, p.key + eq, p, eq, tail);
  }

  /** What a key line adds, once key and value have been read. */
  lemma {:induction false} KeyLineIs(cfg: seq<Section>, t: string, p: Pair, eq: string, tail: string)
    requires p.key != "" && (cfg != [] ==> |cfg[|cfg| - 1].entries| < MAX_KEYS)
    requires ScanKey(t, "") == Scan(p.key, eq) && eq != "" && eq[0] == '='
    requires ValueIs(eq[1..], p.val, tail)
    ensures KeyLine(cfg, t) == (AddPair(if cfg == [] then [Section("global", [])] else cfg, p), tail)
  {
  }

  predicate ValueIs(s: string, val: string, tail: string) {
    var v := SkipBlanks(s); var n := ValLength(v, VAL_LEN - 1);
    TrimEnd(v[..n]) == val && ToNewline(v[n..]) == tail
  }

  /** A printed value read back. */
  lemma {:induction false} ValueReads(val: string, tail: string)
    requires LegalVal(val) && tail != "" && tail[0] == '\n'
    ensures ValueIs(val + tail, val, tail)
  {
    var v := val + tail;
    assert SkipBlanks(v) == v;
    ValLengthReads(val, tail, VAL_LEN - 1);
    assert v[..|val|] == val && v[|val|..] == tail;
  }

  lemma {:induction false} PairLine(cfg: seq<Section>, p: Pair, tail: string)
    requires LegalPair(p) && (cfg != [] ==> |cfg[|cfg| - 1].entries| < MAX_KEYS)
    ensures ParseAll(cfg, p.key + ("=" + (p.val + ("\n" + tail))))
            == ParseAll(AddPair(if cfg == [] then [Section("global", [])] else cfg, p), tail)
  {
    var s := p.key + ("=" + (p.val + ("\n" + tail)));
    KeyLineReads(cfg, p, "\n" + tail);
    assert s[0] == p.key[0] && SkipBlanks(s) == s;
    NewLine(AddPair(if cfg == [] then [Section("global", [])] else cfg, p), tail);
  }

  lemma {:induction false} NewLine(cfg: seq<Section>, tail: string)
    ensures ParseAll(cfg, "\n" + tail) == ParseAll(cfg, tail)
  {
    var s := "\n" + tail;
    assert s[1..] == tail && SkipBlanks(s) == s;
  }

  lemma {:induction false} HeaderShape(name: string, tail: string)
    requires name != "global"
    ensures Header(name) + tail == "[" + (name + ("]" + ("\n" + tail)))
  {
  }

  lemma {:induction false} HeaderStep(cfg: seq<Section>, name: string, tail: string)
    requires LegalName(name) && |cfg| < MAX_SECTIONS
    ensures Step(cfg, "[" + (name + ("]" + ("\n" + tail)))) == (cfg + [Section(name, [])], "\n" + tail)
  {
    var close := "]" + ("\n" + tail);
    var u := name + close;
    var s := "[" + u;
    assert s[1..] == u && SkipBlanks(s) == s;
    NameLengthReads(name, close, KEY_LEN - 1);
    assert u[..|name|] == name && u[|name|..] == close;
    assert close[1..] == "\n" + tail;
    assert ToNewline(close[1..]) == "\n" + tail;
  }

  lemma {:induction false} HeaderLine(cfg: seq<Section>, name: string, tail: string)
    requires LegalName(name) && name != "global" && |cfg| < MAX_SECTIONS
    ensures ParseAll(cfg, Header(name) + tail) == ParseAll(cfg + [Section(name, [])], tail)
  {
    HeaderShape(name, tail);
    HeaderStep(cfg, name, tail);
    NewLine(cfg + [Section(name, [])], tail);
  }

  lemma {:induction false} EntriesShape(es: seq<Pair>, tail: string)
    requires es != []
    ensures Entries(es) + tail == es[0].key + ("=" + (es[0].val + ("\n" + (Entries(es[1..]) + tail))))
  {
    Nest4(es[0].key, "=", es[0].val, "\n", Entries(es[1..]), tail);
  }

  lemma {:induction false} Nest4(a: string, b: string, c: string, d: string, e: string, f: string)
    ensures a + (b + (c + (d + e))) + f == a + (b + (c + (d + (e + f))))
  {
  }

  /** Reading `s` after `c` comes to reading `s'` after `c'`; stated so that it is passed on without unfolding. */
  ghost predicate Reads(c: seq<Section>, s: string, c': seq<Section>, s': string) {
    forall u: bool {:trigger ReadsAt(c, s, c', s', u)} :: ReadsAt(c, s, c', s', u)
  }

  ghost predicate ReadsAt(c: seq<Section>, s: string, c': seq<Section>, s': string, u: bool) {
    ParseAll(c, s) == ParseAll(c', s')
  }

  lemma ReadsTrans(c: seq<Section>, s: string, c': seq<Section>, s': string, c'': seq<Section>, s'': string)
    requires Reads(c, s, c', s') && Reads(c', s', c'', s'')
    ensures Reads(c, s, c'', s'')
  {
    assert ReadsAt(c, s, c', s', true) && ReadsAt(c', s', c'', s'', true);
  }

  lemma {:induction false} EntriesRead(before: seq<Section>, sec: Section, es: seq<Pair>, tail: string)
    requires |sec.entries| + |es| <= MAX_KEYS && forall i | 0 <= i < |es| :: LegalPair(es[i])
    ensures ParseAll(before + [sec], Entries(es) + tail) == ParseAll(before + [Section(sec.name, sec.entries + es)], tail)
  {
    EntriesReads(before, sec, es, tail);
    assert ReadsAt(before + [sec], Entries(es) + tail, before + [Section(sec.name, sec.entries + es)], tail, true);
  }

  /** Printed entries extend the current section. */
  lemma {:induction false} EntriesReads(before: seq<Section>, sec: Section, es: seq<Pair>, tail: string)
    requires |sec.entries| + |es| <= MAX_KEYS && forall i | 0 <= i < |es| :: LegalPair(es[i])
    ensures Reads(before + [sec], Entries(es) + tail, before + [Section(sec.name, sec.entries + es)], tail)
    decreases |es|
  {
    if es == [] {
      assert Entries(es) + tail == tail && sec.entries + es == sec.entries;
    } else {
      var sec' := Section(sec.name, sec.entries + [es[0]]);
      EntryRead(before, sec, es, tail);
      EntriesReads(before, sec', es[1..], tail);
      assert sec'.entries + es[1..] == sec.entries + es;
      ReadsTrans(before + [sec], Entries(es) + tail, before + [sec'], Entries(es[1..]) + tail,
                 before + [Section(sec.name, sec.entries + es)], tail);
    }
  }

  lemma {:induction false} EntryRead(before: seq<Section>, sec: Section, es: seq<Pair>, tail: string)
    requires |sec.entries| < MAX_KEYS && es != [] && LegalPair(es[0])
    ensures Reads(before + [sec], Entries(es) + tail,
                  before + [Section(sec.name, sec.entries + [es[0]])], Entries(es[1..]) + tail)
  {
    EntriesShape(es, tail);
    PairLine(before + [sec], es[0], Entries(es[1..]) + tail);
    assert AddPair(before + [sec], es[0]) == before + [Section(sec.name, sec.entries + [es[0]])];
  }

  /** Printed entries with no section before them start `global`. */
  lemma {:induction false} GlobalRead(es: seq<Pair>, tail: string)
    requires 0 < |es| <= MAX_KEYS && forall i | 0 <= i < |es| :: LegalPair(es[i])
    ensures ParseAll([], Entries(es) + tail) == ParseAll([Section("global", es)], tail)
  {
    var first := Section("global", [es[0]]);
    EntriesShape(es, tail);
    PairLine([], es[0], Entries(es[1..]) + tail);
    var start := [Section("global", [])];
    assert start[0].entries + [es[0]] == [es[0]];
    assert AddPair(start, es[0]) == [first];
    assert [] + [first] == [first] && [es[0]] + es[1..] == es;
    assert [] + [Section("global", es)] == [Section("global", es)];
    EntriesRead([], first, es[1..], tail);
  }

  lemma {:induction false} SectionReads(before: seq<Section>, sec: Section, tail: string)
    requires LegalSection(sec) && |before| < MAX_SECTIONS
    requires sec.name == "global" ==> before == [] && sec.entries != []
    ensures ParseAll(before, Header(sec.name) + (Entries(sec.entries) + ("\n" + tail))) == ParseAll(before + [sec], tail)
  {
    var body := Entries(sec.entries) + ("\n" + tail);
    NewLine(before + [sec], tail);
    if sec.name == "global" {
      assert Header(sec.name) + body == body;
      GlobalRead(sec.entries, "\n" + tail);
      assert before + [sec] == [sec];
    } else {
      HeaderLine(before, sec.name, body);
      EntriesRead(before, Section(sec.name, []), sec.entries, "\n" + tail);
      assert [] + sec.entries == sec.entries;
    }
  }

  lemma {:induction false} NextSection(before: seq<Section>, cfg: seq<Section>)
    requires WellFormed(before + cfg) && cfg != []
    ensures before + [cfg[0]] + cfg[1..] == before + cfg
    ensures LegalSection(cfg[0]) && |before| < MAX_SECTIONS
    ensures cfg[0].name == "global" ==> before == [] && cfg[0].entries != []
  {
    assert (before + cfg)[|before|] == cfg[0];
  }

  lemma {:induction false} TextReads(before: seq<Section>, cfg: seq<Section>)
    requires WellFormed(before + cfg)
    ensures ParseAll(before, Text(cfg)) == before + cfg
    decreases |cfg|
  {
    if cfg == [] {
      assert before + cfg == before;
    } else {
      NextSection(before, cfg);
      SectionReads(before, cfg[0], Text(cfg[1..]));
      TextReads(before + [cfg[0]], cfg[1..]);
    }
  }

  /** Parsing the printed form of a well-formed configuration gives it back, in order. */
  lemma RoundTrip(cfg: seq<Section>)
    requires WellFormed(cfg)
    ensures ParseAll([], Text(cfg)) == cfg
  {
    assert [] + cfg == cfg;
    TextReads([], cfg);
  }

  // ---- Everything read is legal ----

  /** Within the limits, every name, key and value legal. */
  predicate Legal(cfg: seq<Section>) {
    |cfg| <= MAX_SECTIONS && forall i | 0 <= i < |cfg| :: LegalSection(cfg[i])
  }

  /** `global` only as a non-empty first section. */
  predicate GlobalFirst(cfg: seq<Section>) {
    forall i | 0 <= i < |cfg| && cfg[i].name == "global" :: i == 0 && cfg[i].entries != []
  }

  lemma {:induction false} SkipBlanksFirst(s: string)
    ensures var t := SkipBlanks(s); t != "" ==> !Blank(t[0])
  {
    if s != "" && Blank(s[0]) { SkipBlanksFirst(s[1..]); }
  }

  predicate KeyChars(k: string) {
    |k| < KEY_LEN && forall i | 0 <= i < |k| :: k[i] != '=' && k[i] != '\n' && !Blank(k[i])
  }

  lemma {:induction false} ScanKeyLegal(s: string, key: string)
    requires KeyChars(key)
    ensures KeyChars(ScanKey(s, key).text) && key <= ScanKey(s, key).text
    decreases |s|
  {
    if s == "" || s[0] == '=' || s[0] == '\n' || |key| >= KEY_LEN - 1 {
    } else if !Blank(s[0]) {
      ScanKeyLegal(s[1..], key + [s[0]]);
    } else if key == "" {
      ScanKeyLegal(s[1..], key);
    }
  }

  /** The first character of a key is the first of the line. */
  lemma {:induction false} ScanKeyFirst(s: string)
    requires s != "" && !Blank(s[0])
    ensures var k := ScanKey(s, "").text; k != "" ==> k[0] == s[0] && KeyChars(k)
  {
    if s[0] != '=' && s[0] != '\n' {
      assert "" + [s[0]] == [s[0]];
      ScanKeyLegal(s[1..], [s[0]]);
    }
  }

  lemma {:induction false} ValLengthLegal(s: string, room: nat)
    ensures var n := ValLength(s, room); n <= room && forall i | 0 <= i < n :: s[i] != '\n' && s[i] != '\r'
  {
    if !(s == "" || s[0] == '\n' || s[0] == '\r' || room == 0) {
      ValLengthLegal(s[1..], room - 1);
      var n := ValLength(s[1..], room - 1);
      assert forall i | 1 <= i < 1 + n :: s[i] == s[1..][i - 1];
    }
  }

  lemma {:induction false} NameLengthLegal(s: string, room: nat)
    ensures var n := NameLength(s, room); n <= room && forall i | 0 <= i < n :: s[i] != ']' && s[i] != '\n'
  {
    if !(s == "" || s[0] == ']' || s[0] == '\n' || room == 0) {
      NameLengthLegal(s[1..], room - 1);
      var n := NameLength(s[1..], room - 1);
      assert forall i | 1 <= i < 1 + n :: s[i] == s[1..][i - 1];
    }
  }

  lemma {:induction false} TrimEndIs(v: string)
    ensures TrimEnd(v) <= v && (TrimEnd(v) != "" ==> !Blank(TrimEnd(v)[|TrimEnd(v)| - 1]))
  {
    if v != "" && Blank(v[|v| - 1]) { TrimEndIs(v[..|v| - 1]); }
  }

  lemma {:induction false} ValueLegal(s: string)
    ensures var v := SkipBlanks(s); LegalVal(TrimEnd(v[..ValLength(v, VAL_LEN - 1)]))
  {
    var v := SkipBlanks(s);
    SkipBlanksFirst(s);
    ValLengthLegal(v, VAL_LEN - 1);
    TrimEndIs(v[..ValLength(v, VAL_LEN - 1)]);
  }

  lemma {:induction false} AddPairLegal(cfg: seq<Section>, p: Pair)
    requires cfg != [] && Legal(cfg) && LegalPair(p) && |cfg[|cfg| - 1].entries| < MAX_KEYS
    ensures Legal(AddPair(cfg, p))
  {
    assert LegalSection(cfg[|cfg| - 1]);
  }

  lemma {:induction false} KeyLineLegal(cfg: seq<Section>, t: string)
    requires Legal(cfg) && (t != "" ==> !Blank(t[0]) && t[0] != '#' && t[0] != ';' && t[0] != '[' && t[0] != '\r')
    ensures Legal(KeyLine(cfg, t).0)
  {
    var cfg1 := if cfg == [] then [Section("global", [])] else cfg;
    assert Legal(cfg1);
    if |cfg1[|cfg1| - 1].entries| < MAX_KEYS && t != "" {
      var k := ScanKey(t, "");
      ScanKeyFirst(t);
      if k.rest != "" && k.rest[0] == '=' && k.text != "" {
        ValueLegal(k.rest[1..]);
        var v := SkipBlanks(k.rest[1..]);
        AddPairLegal(cfg1, Pair(k.text, TrimEnd(v[..ValLength(v, VAL_LEN - 1)])));
      }
    }
  }

  lemma {:induction false} StepLegal(cfg: seq<Section>, s: string)
    requires Legal(cfg) && s != ""
    ensures Legal(Step(cfg, s).0)
  {
    var t := SkipBlanks(s);
    SkipBlanksFirst(s);
    if t == "" {
      KeyLineLegal(cfg, t);
    } else if t[0] == '[' {
      NameLengthLegal(t[1..], KEY_LEN - 1);
    } else if t[0] != '\n' && t[0] != '\r' && t[0] != '#' && t[0] != ';' {
      KeyLineLegal(cfg, t);
    }
  }

  /** Whatever the text, what is read from it is legal and within the limits. */
  lemma {:induction false} ParseLegal(cfg: seq<Section>, s: string)
    requires Legal(cfg)
    ensures Legal(ParseAll(cfg, s))
    decreases |s|
  {
    if s != "" {
      StepLegal(cfg, s);
      ParseLegal(Step(cfg, s).0, Step(cfg, s).1);
    }
  }

  /** Printing what was read from any text and reading it again changes nothing, unless `global` is misplaced. */
  lemma ReadPrintRead(s: string)
    requires GlobalFirst(ParseAll([], s))
    ensures ParseAll([], Text(ParseAll([], s))) == ParseAll([], s)
  {
    ParseLegal([], s);
    RoundTrip(ParseAll([], s));
  }

  // ---- The round trip fails for every misplaced `global` ----

  /** Sections that reading back a printed configuration creates. */
  function Counted(cfg: seq<Section>, some: bool): nat {
    if cfg == [] then 0
    else
      var new' := cfg[0].name != "global" || (!some && cfg[0].entries != []);
      (if new' then 1 else 0) + Counted(cfg[1..], some || new')
  }

  lemma {:induction false} ToNewlineSkips(a: string, tail: string)
    requires forall i | 0 <= i < |a| :: a[i] != '\n'
    ensures ToNewline(a + ("\n" + tail)) == "\n" + tail
  {
    if a == "" {
      assert a + ("\n" + tail) == "\n" + tail;
    } else {
      assert (a + ("\n" + tail))[1..] == a[1..] + ("\n" + tail);
      ToNewlineSkips(a[1..], tail);
    }
  }

  /** A printed pair never changes the number of sections, even when there is no room for it. */
  lemma {:induction false} PairKeepsCount(cfg: seq<Section>, p: Pair, tail: string) returns (cfg': seq<Section>)
    requires cfg != [] && LegalPair(p)
    ensures |cfg'| == |cfg| && ParseAll(cfg, p.key + ("=" + (p.val + ("\n" + tail)))) == ParseAll(cfg', tail)
  {
    if |cfg[|cfg| - 1].entries| < MAX_KEYS {
      PairLine(cfg, p, tail);
      cfg' := AddPair(cfg, p);
    } else {
      cfg' := cfg;
      var s := p.key + ("=" + (p.val + ("\n" + tail)));
      var line := p.key + ("=" + p.val);
      assert s == line + ("\n" + tail);
      ToNewlineSkips(line, tail);
      assert s[0] == p.key[0] && SkipBlanks(s) == s;
      NewLine(cfg, tail);
    }
  }

  lemma {:induction false} EntriesKeepCount(cfg: seq<Section>, es: seq<Pair>, tail: string) returns (cfg': seq<Section>)
    requires cfg != [] && forall i | 0 <= i < |es| :: LegalPair(es[i])
    ensures |cfg'| == |cfg| && ParseAll(cfg, Entries(es) + tail) == ParseAll(cfg', tail)
    decreases |es|
  {
    if es == [] {
      cfg' := cfg;
      assert Entries(es) + tail == tail;
    } else {
      EntriesShape(es, tail);
      var mid := PairKeepsCount(cfg, es[0], Entries(es[1..]) + tail);
      cfg' := EntriesKeepCount(mid, es[1..], tail);
    }
  }

  /** One printed section read back: how many sections there are then. */
  lemma {:induction false} SectionCount(before: seq<Section>, sec: Section, tail: string) returns (after: seq<Section>)
    requires LegalSection(sec) && |before| < MAX_SECTIONS
    ensures ParseAll(before, Header(sec.name) + (Entries(sec.entries) + ("\n" + tail))) == ParseAll(after, tail)
    ensures |after| == |before| + if sec.name != "global" || (before == [] && sec.entries != []) then 1 else 0
  {
    var body := Entries(sec.entries) + ("\n" + tail);
    if sec.name != "global" {
      SectionReads(before, sec, tail);
      after := before + [sec];
    } else {
      assert Header(sec.name) + body == body;
      if before != [] {
        after := EntriesKeepCount(before, sec.entries, "\n" + tail);
        NewLine(after, tail);
      } else if sec.entries != [] {
        SectionReads(before, sec, tail);
        after := before + [sec];
      } else {
        after := before;
        assert body == "\n" + tail;
        NewLine(after, tail);
      }
    }
  }

  lemma {:induction false} TextCount(before: seq<Section>, cfg: seq<Section>)
    requires |before| + |cfg| <= MAX_SECTIONS && forall i | 0 <= i < |cfg| :: LegalSection(cfg[i])
    ensures |ParseAll(before, Text(cfg))| == |before| + Counted(cfg, before != [])
    decreases |cfg|
  {
    if cfg != [] {
      var after := SectionCount(before, cfg[0], Text(cfg[1..]));
      TextCount(after, cfg[1..]);
    }
  }

  lemma {:induction false} CountedAll(cfg: seq<Section>, some: bool)
    ensures Counted(cfg, some) <= |cfg|
    ensures Counted(cfg, some) == |cfg| ==>
      forall i | 0 <= i < |cfg| && cfg[i].name == "global" :: i == 0 && !some && cfg[i].entries != []
    decreases |cfg|
  {
    if cfg != [] {
      var new' := cfg[0].name != "global" || (!some && cfg[0].entries != []);
      CountedAll(cfg[1..], some || new');
      assert forall k | 0 < k < |cfg| :: cfg[k] == cfg[1..][k - 1];
    }
  }

  /** For legal configurations the round trip holds exactly when `global` is only a non-empty first section. */
  lemma RoundTripIff(cfg: seq<Section>)
    requires Legal(cfg)
    ensures ParseAll([], Text(cfg)) == cfg <==> GlobalFirst(cfg)
  {
    if GlobalFirst(cfg) {
      RoundTrip(cfg);
    } else {
      TextCount([], cfg);
      CountedAll(cfg, false);
    }
  }

  // ---- Lookup and update ----

  /** Index of the first entry with that key, -1 if there is none. */
  function FindKey(es: seq<Pair>, key: string): (i: int)
    ensures -1 <= i < |es| && (i >= 0 ==> es[i].key == key && forall k | 0 <= k < i :: es[k].key != key)
    ensures i < 0 ==> forall k | 0 <= k < |es| :: es[k].key != key
  {
    if es == [] then -1
    else
      var f := FindKey(es[..|es| - 1], key);
      if f >= 0 then f else if es[|es| - 1].key == key then |es| - 1 else -1
  }

  function FindSection(cfg: seq<Section>, name: string): (i: int)
    ensures -1 <= i < |cfg| && (i >= 0 ==> cfg[i].name == name && forall k | 0 <= k < i :: cfg[k].name != name)
    ensures i < 0 ==> forall k | 0 <= k < |cfg| :: cfg[k].name != name
  {
    if cfg == [] then -1
    else
      var f := FindSection(cfg[..|cfg| - 1], name);
      if f >= 0 then f else if cfg[|cfg| - 1].name == name then |cfg| - 1 else -1
  }

  /** The value of a key: the first match over all sections of that name, in order. */
  function Get(cfg: seq<Section>, section: string, key: string): Option<string> {
    if cfg == [] then None
    else
      var k := FindKey(cfg[0].entries, key);
      if cfg[0].name == section && k >= 0 then Some(cfg[0].entries[k].val) else Get(cfg[1..], section, key)
  }

  function PutPair(es: seq<Pair>, key: string, val: string): seq<Pair> {
    var k := FindKey(es, key);
    if k >= 0 then es[k := Pair(key, val)] else es + [Pair(key, val)]
  }

  /** The configuration with a value set in the first section of that name, which is added if missing. */
  function Put(cfg: seq<Section>, section: string, key: string, val: string): seq<Section> {
    var i := FindSection(cfg, section);
    if i >= 0 then cfg[i := Section(section, PutPair(cfg[i].entries, key, val))]
    else cfg + [Section(section, [Pair(key, val)])]
  }

  /** There is room for the section and the key. */
  predicate Room(cfg: seq<Section>, section: string, key: string) {
    var i := FindSection(cfg, section);
    if i < 0 then |cfg| < MAX_SECTIONS
    else FindKey(cfg[i].entries, key) >= 0 || |cfg[i].entries| < MAX_KEYS
  }

  /** The first entry of a key, or that there is none, in terms of the entries alone. */
  predicate FoundAt(es: seq<Pair>, key: string, i: int) {
    && -1 <= i < |es| && (i >= 0 ==> es[i].key == key)
    && forall k | 0 <= k < (if i < 0 then |es| else i) :: es[k].key != key
  }

  lemma {:induction false} FoundIsFind(es: seq<Pair>, key: string, i: int)
    requires FoundAt(es, key, i)
    ensures FindKey(es, key) == i
  {
  }

  lemma {:induction false} FindIsFound(es: seq<Pair>, key: string)
    ensures FoundAt(es, key, FindKey(es, key))
  {
  }

  /** Replacing or appending a pair moves no other key. */
  lemma {:induction false} SetKeepsOthers(es: seq<Pair>, es': seq<Pair>, k: int, p: Pair, q: string, f: int)
    requires FoundAt(es, q, f) && q != p.key
    requires if 0 <= k < |es| then es[k].key == p.key && es' == es[k := p] else es' == es + [p]
    ensures FoundAt(es', q, f) && (f >= 0 ==> es'[f] == es[f])
  {
  }

  /** Looking a key up in updated entries. */
  lemma {:induction false} PutPairFind(es: seq<Pair>, key: string, val: string, q: string)
    ensures var es' := PutPair(es, key, val);
      var f, f' := FindKey(es, q), FindKey(es', q);
      if q == key then f' >= 0 && es'[f'].val == val else f == f' && (f >= 0 ==> es'[f].val == es[f].val)
  {
    var es' := PutPair(es, key, val);
    var k, f := FindKey(es, key), FindKey(es, q);
    FindIsFound(es, key);
    FindIsFound(es, q);
    if q == key {
      FoundIsFind(es', q, if k >= 0 then k else |es|);
    } else {
      SetKeepsOthers(es, es', k, Pair(key, val), q, f);
      FoundIsFind(es', q, f);
    }
  }

  lemma {:induction false} GetAppend(a: seq<Section>, b: seq<Section>, section: string, key: string)
    ensures Get(a + b, section, key) == if Get(a, section, key).Some? then Get(a, section, key) else Get(b, section, key)
    decreases |a|
  {
    if a == [] {
      assert a + b == b;
    } else {
      assert (a + b)[0] == a[0] && (a + b)[1..] == a[1..] + b;
      GetAppend(a[1..], b, section, key);
    }
  }

  lemma {:induction false} GetAbsent(a: seq<Section>, section: string, key: string)
    requires forall k | 0 <= k < |a| :: a[k].name != section
    ensures Get(a, section, key) == None
  {
    if a != [] { GetAbsent(a[1..], section, key); }
  }

  lemma {:induction false} GetOne(sec: Section, section: string, key: string)
    ensures Get([sec], section, key) ==
      if sec.name == section && FindKey(sec.entries, key) >= 0 then Some(sec.entries[FindKey(sec.entries, key)].val) else None
  {
    assert [sec][1..] == [];
  }

  /** Setting is map update: that key now has that value and every other lookup is as before. */
  lemma {:induction false} PutIsUpdate(cfg: seq<Section>, section: string, key: string, val: string, s: string, q: string)
    ensures Get(Put(cfg, section, key, val), s, q) == if s == section && q == key then Some(val) else Get(cfg, s, q)
  {
    var i := FindSection(cfg, section);
    if i >= 0 {
      var a, sec, b := cfg[..i], cfg[i], cfg[i + 1..];
      var sec' := Section(section, PutPair(sec.entries, key, val));
      assert cfg == a + ([sec] + b);
      assert Put(cfg, section, key, val) == a + ([sec'] + b);
      Get3(a, sec, b, s, q);
      Get3(a, sec', b, s, q);
      GetAbsent(a, section, q);
      PutPairFind(sec.entries, key, val, q);
    } else {
      var new' := Section(section, [Pair(key, val)]);
      GetAppend(cfg, [new'], s, q);
      GetOne(new', s, q);
      GetAbsent(cfg, section, q);
      PutPairFind([], key, val, q);
      assert [] + [Pair(key, val)] == [Pair(key, val)];
    }
  }

  lemma {:induction false} Get3(a: seq<Section>, sec: Section, b: seq<Section>, s: string, q: string)
    ensures Get(a + ([sec] + b), s, q) ==
      if Get(a, s, q).Some? then Get(a, s, q)
      else if sec.name == s && FindKey(sec.entries, q) >= 0 then Some(sec.entries[FindKey(sec.entries, q)].val)
      else Get(b, s, q)
  {
    GetAppend(a, [sec] + b, s, q);
    GetAppend([sec], b, s, q);
    GetOne(sec, s, q);
  }

  /** Setting keeps a configuration well-formed, so what is set survives being printed and read back. */
  lemma {:induction false} PutKeepsWellFormed(cfg: seq<Section>, section: string, key: string, val: string)
    requires WellFormed(cfg) && Room(cfg, section, key) && LegalName(section) && LegalKey(key) && LegalVal(val)
    requires section == "global" ==> cfg == [] || cfg[0].name == "global"
    ensures WellFormed(Put(cfg, section, key, val))
  {
    var i := FindSection(cfg, section);
    if i >= 0 {
      assert LegalSection(cfg[i]);
    }
  }

  // ---- Saving and loading ----

  const FILE_BUFFER := 8192

  /** How many entries are printed from `pos` on into a buffer of `size` bytes: up to the first that does not fit. */
  function EntriesKept(es: seq<Pair>, pos: nat, size: nat): (n: nat)
    ensures n <= |es|
  {
    if es == [] || pos + |es[0].key| + |es[0].val| + 3 >= size then 0
    else 1 + EntriesKept(es[1..], pos + |es[0].key| + |es[0].val| + 2, size)
  }

  function SectionKept(sec: Section, pos: nat, size: nat): Section {
    Section(sec.name, sec.entries[..EntriesKept(sec.entries, pos + |Header(sec.name)|, size)])
  }

  function SectionText(sec: Section): string { Header(sec.name) + (Entries(sec.entries) + "\n") }

  /** Whether a section is begun at `pos`: the header of `global` is empty and not checked. */
  predicate Begun(sec: Section, pos: nat, size: nat) { sec.name == "global" || pos + |sec.name| + 4 < size }

  /** What is printed: sections up to the first whose header does not fit, of each the entries up to the first that does not. */
  function Kept(cfg: seq<Section>, pos: nat, size: nat): (kept: seq<Section>)
    ensures |kept| <= |cfg|
    ensures forall i | 0 <= i < |kept| :: kept[i].name == cfg[i].name && kept[i].entries <= cfg[i].entries
    decreases |cfg|
  {
    if cfg == [] || !Begun(cfg[0], pos, size) then []
    else
      var sec := SectionKept(cfg[0], pos, size);
      [sec] + Kept(cfg[1..], pos + |SectionText(sec)|, size)
  }

  lemma {:induction false} AllEntriesKept(es: seq<Pair>, pos: nat, size: nat)
    requires pos + |Entries(es)| + 1 < size
    ensures EntriesKept(es, pos, size) == |es|
    decreases |es|
  {
    if es != [] { AllEntriesKept(es[1..], pos + |es[0].key| + |es[0].val| + 2, size); }
  }

  lemma {:induction false} TextStarts(cfg: seq<Section>)
    requires cfg != []
    ensures Text(cfg) == SectionText(cfg[0]) + Text(cfg[1..])
  {
    var h, e, t := Header(cfg[0].name), Entries(cfg[0].entries), Text(cfg[1..]);
    Sequences.Regroup(h, e + "\n", t);
    Sequences.Regroup(e, "\n", t);
  }

  lemma {:induction false} TextLength(cfg: seq<Section>, sec: Section, rest: seq<Section>)
    requires cfg != [] && sec == cfg[0] && rest == cfg[1..]
    ensures |Text(cfg)| == |SectionText(sec)| + |Text(rest)| && cfg == [sec] + rest
  {
    TextStarts(cfg);
  }

  lemma {:induction false} SectionAllKept(sec: Section, pos: nat, size: nat)
    requires pos + |SectionText(sec)| < size
    ensures SectionKept(sec, pos, size) == sec && Begun(sec, pos, size)
  {
    AllEntriesKept(sec.entries, pos + |Header(sec.name)|, size);
    assert sec.entries[..|sec.entries|] == sec.entries;
  }

  /** A text that fits is printed whole. */
  lemma {:induction false} AllKept(cfg: seq<Section>, pos: nat, size: nat)
    requires pos + |Text(cfg)| < size
    ensures Kept(cfg, pos, size) == cfg
    decreases |cfg|
  {
    if cfg != [] {
      var sec, rest := cfg[0], cfg[1..];
      TextLength(cfg, sec, rest);
      SectionAllKept(sec, pos, size);
      AllKept(rest, pos + |SectionText(sec)|, size);
      KeptFirst(cfg, pos, size, sec, rest);
    }
  }

  lemma {:induction false} KeptFirst(cfg: seq<Section>, pos: nat, size: nat, sec: Section, rest: seq<Section>)
    requires cfg == [sec] + rest && Begun(sec, pos, size)
    requires SectionKept(sec, pos, size) == sec && Kept(rest, pos + |SectionText(sec)|, size) == rest
    ensures Kept(cfg, pos, size) == cfg
  {
    assert cfg[1..] == rest;
  }

  /** What is printed begins with what is printed of the first section. */
  lemma {:induction false} KeptStarts(cfg: seq<Section>, pos: nat, size: nat)
    requires cfg != [] && Begun(cfg[0], pos, size)
    ensures var sec := SectionText(SectionKept(cfg[0], pos, size));
      Text(Kept(cfg, pos, size)) == sec + Text(Kept(cfg[1..], pos + |sec|, size))
  {
    var kept := Kept(cfg, pos, size);
    TextStarts(kept);
    assert kept[1..] == Kept(cfg[1..], pos + |SectionText(kept[0])|, size);
  }

  // ---- What is printed and the size of the buffer ----

  lemma {:induction false} EntriesEnd(es: seq<Pair>, pos: nat, size: nat)
    ensures var n := EntriesKept(es, pos, size); n > 0 ==> pos + |Entries(es[..n])| + 2 <= size
    decreases |es|
  {
    var n := EntriesKept(es, pos, size);
    if n > 0 {
      EntriesEnd(es[1..], pos + |es[0].key| + |es[0].val| + 2, size);
      assert es[..n][1..] == es[1..][..n - 1];
    }
  }

  /** Where the text stands after a section begun at `pos`. */
  function SectionEnd(sec: Section, pos: nat, size: nat): (end: nat)
    ensures end > pos
  {
    pos + |SectionText(SectionKept(sec, pos, size))|
  }

  /** Only the newline after an empty or cut `global` can go beyond the last byte but one, as it is written unchecked. */
  lemma SectionEnds(sec: Section, pos: nat, size: nat)
    requires Begun(sec, pos, size)
    ensures SectionEnd(sec, pos, size) < size || (sec.name == "global" && SectionEnd(sec, pos, size) == pos + 1)
  {
    EntriesEnd(sec.entries, pos + |Header(sec.name)|, size);
  }

  /** Sections `i` and `i + 1` are `global`, and everything before them is begun and ends on the last byte but one. */
  predicate OverrunsAt(cfg: seq<Section>, pos: nat, size: nat, i: nat) {
    && i + 1 < |cfg| && cfg[i].name == "global" && cfg[i + 1].name == "global"
    && |Kept(cfg[..i], pos, size)| == i && pos + |Text(Kept(cfg[..i], pos, size))| + 1 == size
  }

  ghost predicate OverrunsFrom(cfg: seq<Section>, pos: nat, size: nat) {
    exists i: nat :: OverrunsAt(cfg, pos, size, i)
  }

  lemma {:induction false} OverrunsShift(cfg: seq<Section>, pos: nat, size: nat, i: nat)
    requires cfg != []
    ensures OverrunsAt(cfg, pos, size, i + 1) <==>
            Begun(cfg[0], pos, size) && OverrunsAt(cfg[1..], SectionEnd(cfg[0], pos, size), size, i)
  {
    if i + 1 < |cfg| {
      assert cfg[..i + 1] == [cfg[0]] + cfg[1..][..i];
      KeptHead(cfg[0], cfg[1..][..i], pos, size);
    }
  }

  lemma {:induction false} KeptHead(sec: Section, rest: seq<Section>, pos: nat, size: nat)
    ensures !Begun(sec, pos, size) ==> Kept([sec] + rest, pos, size) == []
    ensures var end := SectionEnd(sec, pos, size);
      Begun(sec, pos, size) ==>
        && |Kept([sec] + rest, pos, size)| == 1 + |Kept(rest, end, size)|
        && pos + |Text(Kept([sec] + rest, pos, size))| == end + |Text(Kept(rest, end, size))|
  {
    var cfg := [sec] + rest;
    assert cfg[0] == sec && cfg[1..] == rest;
    if Begun(sec, pos, size) { KeptCount(cfg, pos, size); }
  }

  lemma {:induction false} KeptCount(cfg: seq<Section>, pos: nat, size: nat)
    requires cfg != [] && Begun(cfg[0], pos, size)
    ensures var rest := Kept(cfg[1..], SectionEnd(cfg[0], pos, size), size);
      |Kept(cfg, pos, size)| == 1 + |rest| && pos + |Text(Kept(cfg, pos, size))| == SectionEnd(cfg[0], pos, size) + |Text(rest)|
  {
    KeptStarts(cfg, pos, size);
  }

  lemma {:induction false} OverrunsLater(cfg: seq<Section>, pos: nat, size: nat)
    requires cfg != [] && !OverrunsAt(cfg, pos, size, 0)
    ensures OverrunsFrom(cfg, pos, size) <==>
            Begun(cfg[0], pos, size) && OverrunsFrom(cfg[1..], SectionEnd(cfg[0], pos, size), size)
  {
    var end := SectionEnd(cfg[0], pos, size);
    if OverrunsFrom(cfg, pos, size) {
      var i: nat :| OverrunsAt(cfg, pos, size, i);
      OverrunsShift(cfg, pos, size, i - 1);
    } else if Begun(cfg[0], pos, size) && OverrunsFrom(cfg[1..], end, size) {
      var i: nat :| OverrunsAt(cfg[1..], end, size, i);
      OverrunsShift(cfg, pos, size, i);
    }
  }

  /** From the last byte on nothing but a `global` is begun. */
  lemma {:induction false} KeptAtEnd(cfg: seq<Section>, size: nat)
    ensures |Text(Kept(cfg, size, size))| == 0 <==> cfg == [] || cfg[0].name != "global"
    ensures !OverrunsFrom(cfg, size, size)
  {
    if cfg != [] && cfg[0].name == "global" { KeptStarts(cfg, size, size); }
  }

  lemma {:induction false} KeptFitsFrom(cfg: seq<Section>, pos: nat, size: nat)
    requires pos < size
    ensures pos + |Text(Kept(cfg, pos, size))| <= size <==> !OverrunsFrom(cfg, pos, size)
    decreases |cfg|
  {
    if cfg == [] {
    } else if !Begun(cfg[0], pos, size) {
      OverrunsLater(cfg, pos, size);
    } else {
      var end := SectionEnd(cfg[0], pos, size);
      KeptStarts(cfg, pos, size);
      SectionEnds(cfg[0], pos, size);
      if end < size {
        KeptFitsFrom(cfg[1..], end, size);
        FirstOverruns(cfg, pos, size);
        OverrunsLater(cfg, pos, size);
      } else {
        KeptAtEnd(cfg[1..], size);
        FirstOverruns(cfg, pos, size);
        if !OverrunsAt(cfg, pos, size, 0) { OverrunsLater(cfg, pos, size); }
      }
    }
  }

  lemma {:induction false} FirstOverruns(cfg: seq<Section>, pos: nat, size: nat)
    requires cfg != [] && Begun(cfg[0], pos, size)
    ensures OverrunsAt(cfg, pos, size, 0) <==>
            pos + 1 == size && cfg[0].name == "global" && |cfg| > 1 && cfg[1].name == "global"
    ensures OverrunsAt(cfg, pos, size, 0) ==> SectionEnd(cfg[0], pos, size) == size
  {
  }

  /** What is printed exceeds the buffer: a `global` meets a buffer of no bytes, or two in a row meet its last byte. */
  ghost predicate Overruns(cfg: seq<Section>, size: nat) {
    if size == 0 then cfg != [] && cfg[0].name == "global" else OverrunsFrom(cfg, 0, size)
  }

  /** Exactly when what is printed stays within the buffer. */
  lemma KeptFits(cfg: seq<Section>, size: nat)
    ensures |Text(Kept(cfg, 0, size))| <= size <==> !Overruns(cfg, size)
  {
    if size == 0 { KeptAtEnd(cfg, 0); } else { KeptFitsFrom(cfg, 0, size); }
  }

  predicate GlobalsApart(cfg: seq<Section>) {
    forall i | 0 <= i < |cfg| - 1 :: cfg[i].name != "global" || cfg[i + 1].name != "global"
  }

  /** A configuration stays within every buffer exactly if no two neighbouring sections are named `global`. */
  lemma {:induction false} FitsEveryBuffer(cfg: seq<Section>)
    ensures (forall size: nat | size > 0 :: |Text(Kept(cfg, 0, size))| <= size) <==> GlobalsApart(cfg)
  {
    forall size: nat | size > 0 && GlobalsApart(cfg) ensures |Text(Kept(cfg, 0, size))| <= size {
      KeptFits(cfg, size);
    }
    if !GlobalsApart(cfg) {
      var i :| 0 <= i < |cfg| - 1 && cfg[i].name == "global" && cfg[i + 1].name == "global";
      var size := |Text(cfg[..i])| + 1;
      AllKept(cfg[..i], 0, size);
      assert OverrunsAt(cfg, 0, size, i);
      KeptFits(cfg, size);
    }
  }

  /** Two empty sections `global` print two bytes into a buffer of one. */
  lemma GlobalsOverrun()
    ensures var cfg := [Section("global", []), Section("global", [])]; Legal(cfg) && |Text(Kept(cfg, 0, 1))| == 2
  {
    var cfg := [Section("global", []), Section("global", [])];
    assert LegalSection(cfg[0]) && LegalSection(cfg[1]);
    KeptStarts(cfg, 0, 1);
    KeptStarts(cfg[1..], 1, 1);
  }

  /** What is printed of a legal configuration, whole or cut, is legal, so that it reads back exactly if `global` is in place. */
  lemma {:induction false} KeptReadsBack(cfg: seq<Section>, size: nat)
    requires Legal(cfg)
    ensures Legal(Kept(cfg, 0, size))
    ensures ParseAll([], Text(Kept(cfg, 0, size))) == Kept(cfg, 0, size) <==> GlobalFirst(Kept(cfg, 0, size))
  {
    var kept := Kept(cfg, 0, size);
    forall i | 0 <= i < |kept| ensures LegalSection(kept[i]) { assert LegalSection(cfg[i]); }
    RoundTripIff(kept);
  }

  /** The bytes a save writes, and the configuration a load of them reads. */
  function Saved(cfg: seq<Section>): string { Text(Kept(cfg, 0, FILE_BUFFER)) }

  function Loaded(file: string): seq<Section> {
    ParseAll([], if |file| < FILE_BUFFER then file else file[..FILE_BUFFER - 1])
  }

  /** What is set is what is read after saving and loading, as long as the text fits the buffers. */
  lemma SetSurvives(cfg: seq<Section>, section: string, key: string, val: string, s: string, q: string)
    requires WellFormed(cfg) && Room(cfg, section, key) && LegalName(section) && LegalKey(key) && LegalVal(val)
    requires section == "global" ==> cfg == [] || cfg[0].name == "global"
    requires |Text(Put(cfg, section, key, val))| < FILE_BUFFER
    ensures Get(Loaded(Saved(Put(cfg, section, key, val))), s, q)
            == if s == section && q == key then Some(val) else Get(cfg, s, q)
  {
    var cfg' := Put(cfg, section, key, val);
    PutKeepsWellFormed(cfg, section, key, val);
    AllKept(cfg', 0, FILE_BUFFER);
    RoundTrip(cfg');
    PutIsUpdate(cfg, section, key, val, s, q);
  }

  /** A section `global` after another one does not come back: its entries join the section before. */
  lemma GlobalIsLost()
    ensures var cfg := [Section("a", []), Section("global", [Pair("k", "v")])];
      Legal(cfg) && ParseAll([], Text(cfg)) != cfg
  {
    var cfg := [Section("a", []), Section("global", [Pair("k", "v")])];
    assert LegalSection(cfg[0]) && LegalSection(cfg[1]);
    assert !GlobalFirst(cfg) by { assert cfg[1].name == "global"; }
    RoundTripIff(cfg);
  }
}
