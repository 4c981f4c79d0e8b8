/** The configuration format line by line: what each kind of line adds, whatever comes before and after it. */
module IniLines {
  import opened Ini
  import Sequences

  predicate Blanks(s: string) { forall k | 0 <= k < |s| :: Blank(s[k]) }
  predicate OneLine(s: string) { forall k | 0 <= k < |s| :: s[k] != '\n' }

  lemma {:induction false} SkipsBlanks(b: string, t: string)
    requires Blanks(b) && t != "" && !Blank(t[0])
    ensures SkipBlanks(b + t) == t
  {
    if b == "" {
      assert b + t == t;
    } else {
      assert (b + t)[0] == b[0] && (b + t)[1..] == b[1..] + t;
      SkipsBlanks(b[1..], t);
    }
  }

  /** Blanks at the beginning of a line make no difference. */
  lemma Indented(cfg: seq<Section>, b: string, t: string)
    requires Blanks(b) && t != "" && !Blank(t[0])
    ensures ParseAll(cfg, b + t) == ParseAll(cfg, t)
  {
    SkipsBlanks(b, t);
    SkipsBlanks("", t);
    assert "" + t == t;
    assert Step(cfg, b + t) == Step(cfg, t);
  }

  /** A turn of the parser that ends before a newline has dealt with the line. */
  lemma LineDone(cfg: seq<Section>, t: string, cfg': seq<Section>, tail: string)
    requires t != "" && Step(cfg, t) == (cfg', "\n" + tail)
    ensures ParseAll(cfg, t) == ParseAll(cfg', tail)
  {
    NewLine(cfg', tail);
  }

  /** A line of blanks adds nothing. */
  lemma BlankLine(cfg: seq<Section>, b: string, tail: string)
    requires Blanks(b)
    ensures ParseAll(cfg, b + ("\n" + tail)) == ParseAll(cfg, tail)
  {
    Indented(cfg, b, "\n" + tail);
    NewLine(cfg, tail);
  }

  /** A comment adds nothing. */
  lemma CommentLine(cfg: seq<Section>, b: string, mark: char, text: string, tail: string)
    requires Blanks(b) && (mark == '#' || mark == ';') && OneLine(text)
    ensures ParseAll(cfg, b + ([mark] + (text + ("\n" + tail)))) == ParseAll(cfg, tail)
  {
    var t := [mark] + (text + ("\n" + tail));
    Indented(cfg, b, t);
    Commented(cfg, mark, text, tail);
    LineDone(cfg, t, cfg, tail);
  }

  lemma Commented(cfg: seq<Section>, mark: char, text: string, tail: string)
    requires (mark == '#' || mark == ';') && OneLine(text)
    ensures Step(cfg, [mark] + (text + ("\n" + tail))) == (cfg, "\n" + tail)
  {
    var t := [mark] + (text + ("\n" + tail));
    assert t == ([mark] + text) + ("\n" + tail);
    ToNewlineSkips([mark] + text, tail);
  }

  /** A header opens a section, if there is room for one; what follows the bracket is ignored. */
  lemma HeaderReads(cfg: seq<Section>, b: string, name: string, junk: string, tail: string)
    requires Blanks(b) && LegalName(name) && OneLine(junk)
    ensures ParseAll(cfg, b + ("[" + (name + ("]" + (junk + ("\n" + tail))))))
            == ParseAll(if |cfg| < MAX_SECTIONS then cfg + [Section(name, [])] else cfg, tail)
  {
    var t := "[" + (name + ("]" + (junk + ("\n" + tail))));
    Indented(cfg, b, t);
    Opened(cfg, name, junk, tail);
    LineDone(cfg, t, if |cfg| < MAX_SECTIONS then cfg + [Section(name, [])] else cfg, tail);
  }

  lemma Opened(cfg: seq<Section>, name: string, junk: string, tail: string)
    requires LegalName(name) && OneLine(junk)
    ensures Step(cfg, "[" + (name + ("]" + (junk + ("\n" + tail)))))
            == (if |cfg| < MAX_SECTIONS then cfg + [Section(name, [])] else cfg, "\n" + tail)
  {
    var close := "]" + (junk + ("\n" + tail));
    var u := name + close;
    var t := "[" + u;
    assert t[1..] == u && SkipBlanks(t) == t;
    NameLengthReads(name, close, KEY_LEN - 1);
    assert u[..|name|] == name && u[|name|..] == close;
    assert close == ("]" + junk) + ("\n" + tail);
    ToNewlineSkips("]" + junk, tail);
    assert u == (name + ("]" + junk)) + ("\n" + tail);
    ToNewlineSkips(name + ("]" + junk), tail);
  }

  // ---- Pairs ----

  function Opening(cfg: seq<Section>): seq<Section> { if cfg == [] then [Section("global", [])] else cfg }

  predicate HasRoom(cfg: seq<Section>) { cfg == [] || |cfg[|cfg| - 1].entries| < MAX_KEYS }

  /** A key followed by a blank is read, and the blank with it. */
  lemma {:induction false} ScanKeyBlank(k: string, c: char, rest: string, done: string)
    requires |done| + |k| < KEY_LEN - 1 && done + k != "" && Blank(c)
    requires forall i | 0 <= i < |k| :: k[i] != '=' && k[i] != '\n' && !Blank(k[i])
    ensures ScanKey(k + ([c] + rest), done) == Scan(done + k, rest)
    decreases |k|
  {
    var t := k + ([c] + rest);
    if k == "" {
      assert t == [c] + rest && t[1..] == rest && done + k == done;
    } else {
      assert t[0] == k[0] && t[1..] == k[1..] + ([c] + rest);
      assert done + [k[0]] + k[1..] == done + k;
      ScanKeyBlank(k[1..], c, rest, done + [k[0]]);
    }
  }

  /** A key of the greatest length is read, and nothing after it. */
  lemma {:induction false} ScanKeyFull(k: string, rest: string, done: string)
    requires |done| + |k| == KEY_LEN - 1
    requires forall i | 0 <= i < |k| :: k[i] != '=' && k[i] != '\n' && !Blank(k[i])
    ensures ScanKey(k + rest, done) == Scan(done + k, rest)
    decreases |k|
  {
    var t := k + rest;
    if k == "" {
      assert t == rest && done + k == done;
    } else {
      assert t[0] == k[0] && t[1..] == k[1..] + rest;
      assert done + [k[0]] + k[1..] == done + k;
      ScanKeyFull(k[1..], rest, done + [k[0]]);
    }
  }

  /** What ends a value: the end of the line, or a carriage return and whatever else is on the line. */
  predicate Ending(cr: string) { OneLine(cr) && (cr != "" ==> cr[0] == '\r') }

  predicate ValueText(text: string) {
    (forall k | 0 <= k < |text| :: text[k] != '\n' && text[k] != '\r') && (text != "" ==> !Blank(text[0]))
  }

  /** The value that is read: at most 127 characters, without blanks at its end. */
  function ValueOf(text: string): string { TrimEnd(if |text| < VAL_LEN then text else text[..VAL_LEN - 1]) }

  lemma {:induction false} ValLengthIs(line: string, end: string, room: nat)
    requires (forall k | 0 <= k < |line| :: line[k] != '\n' && line[k] != '\r') && end != "" && (end[0] == '\n' || end[0] == '\r')
    ensures ValLength(line + end, room) == if |line| <= room then |line| else room
  {
    var t := line + end;
    if line == "" {
      assert t == end;
    } else if room > 0 {
      assert t[0] == line[0] && t[1..] == line[1..] + end;
      ValLengthIs(line[1..], end, room - 1);
    }
  }

  /** Blanks after '=' do not belong to the value. */
  lemma SpacedValue(b: string, text: string, cr: string, tail: string, s: string)
    requires Blanks(b) && ValueText(text) && Ending(cr) && s == b + (text + (cr + ("\n" + tail)))
    ensures ValueIs(s, ValueOf(text), "\n" + tail)
  {
    var end := cr + ("\n" + tail);
    assert end[0] == if cr == "" then '\n' else '\r';
    var v := text + end;
    assert v[0] == if text == "" then end[0] else text[0];
    SkipsBlanks(b, v);
    ValLengthIs(text, end, VAL_LEN - 1);
    var n := ValLength(v, VAL_LEN - 1);
    assert v[..n] == text[..n] && (n == |text| ==> text[..n] == text);
    assert v[n..] == text[n..] + end;
    Sequences.Regroup(text[n..], cr, "\n" + tail);
    ToNewlineSkips(text[n..] + cr, tail);
  }

  lemma {:induction false} TrimsBlanks(val: string, b: string)
    requires Blanks(b) && (val != "" ==> !Blank(val[|val| - 1]))
    ensures TrimEnd(val + b) == val
    decreases |b|
  {
    if b == "" {
      assert val + b == val;
    } else {
      var n := |b| - 1;
      assert (val + b)[..|val + b| - 1] == val + b[..n] && (val + b)[|val + b| - 1] == b[n];
      TrimsBlanks(val, b[..n]);
    }
  }

  /** A legal value is read as it is, blanks after it not. */
  lemma LegalValueReads(val: string, b: string)
    requires LegalVal(val) && Blanks(b) && (val == "" ==> b == "")
    ensures ValueText(val + b) && ValueOf(val + b) == val
  {
    if |val + b| < VAL_LEN {
      TrimsBlanks(val, b);
    } else {
      var m := VAL_LEN - 1 - |val|;
      assert (val + b)[..VAL_LEN - 1] == val + b[..m];
      TrimsBlanks(val, b[..m]);
    }
  }

  /** The blanks between a key and '=' that the parser reads over: at most one, and none after a key of the greatest length. */
  predicate Close(key: string, gap: string) { |gap| == 0 || (|gap| == 1 && |key| < KEY_LEN - 1) }

  lemma KeyScans(key: string, gap: string, eq: string)
    requires LegalKey(key) && Blanks(gap) && eq != "" && eq[0] == '='
    ensures Close(key, gap) ==> ScanKey(key + (gap + eq), "") == Scan(key, eq)
    ensures !Close(key, gap) ==> var k := ScanKey(key + (gap + eq), ""); exists b :: Blanks(b) && b != "" && k == Scan(key, b + eq)
  {
    assert "" + key == key;
    if gap == "" {
      assert gap + eq == eq;
      ScanKeyReads(key, eq, "");
    } else if |key| == KEY_LEN - 1 {
      ScanKeyFull(key, gap + eq, "");
    } else {
      assert gap + eq == [gap[0]] + (gap[1..] + eq);
      ScanKeyBlank(key, gap[0], gap[1..] + eq, "");
      if |gap| == 1 { assert gap[1..] + eq == eq; } else { assert Blanks(gap[1..]); }
    }
  }

  lemma KeyLineStep(cfg: seq<Section>, t: string)
    requires t != "" && Begins(t[0])
    ensures Step(cfg, t) == KeyLine(cfg, t)
  {
    assert SkipBlanks(t) == t;
  }

  /** A pair is read exactly if there are not too many blanks between the key and '='; else the line adds nothing, but opens
      the section `global` if there is none yet. Blanks before the key and before the value make no difference. */
  lemma PairReads(cfg: seq<Section>, b: string, key: string, gap: string, b1: string, text: string, cr: string, tail: string, line: string)
    requires Blanks(b) && LegalKey(key) && Blanks(gap) && Blanks(b1) && ValueText(text) && Ending(cr) && HasRoom(cfg)
    requires line == key + (gap + ("=" + (b1 + (text + (cr + ("\n" + tail))))))
    ensures ParseAll(cfg, b + line) == ParseAll(if Close(key, gap) then AddPair(Opening(cfg), Pair(key, ValueOf(text))) else Opening(cfg), tail)
  {
    assert line[0] == key[0];
    Indented(cfg, b, line);
    PairStep(cfg, key, gap, b1, text, cr, tail, "=" + (b1 + (text + (cr + ("\n" + tail)))));
    LineDone(cfg, line, if Close(key, gap) then AddPair(Opening(cfg), Pair(key, ValueOf(text))) else Opening(cfg), tail);
  }

  lemma PairStep(cfg: seq<Section>, key: string, gap: string, b1: string, text: string, cr: string, tail: string, eq: string)
    requires LegalKey(key) && Blanks(gap) && Blanks(b1) && ValueText(text) && Ending(cr) && HasRoom(cfg)
    requires eq == "=" + (b1 + (text + (cr + ("\n" + tail))))
    ensures Step(cfg, key + (gap + eq))
            == (if Close(key, gap) then AddPair(Opening(cfg), Pair(key, ValueOf(text))) else Opening(cfg), "\n" + tail)
  {
    var t := key + (gap + eq);
    assert t[0] == key[0];
    KeyLineStep(cfg, t);
    KeyScans(key, gap, eq);
    if Close(key, gap) {
      SpacedValue(b1, text, cr, tail, eq[1..]);
      KeyLineIs(cfg, t, Pair(key, ValueOf(text)), eq, "\n" + tail);
    } else {
      var b :| Blanks(b) && b != "" && ScanKey(t, "") == Scan(key, b + eq);
      LineText(b, b1, text, cr, tail);
      ToNewlineSkips(b + ("=" + (b1 + (text + cr))), tail);
      KeyLineLost(cfg, t, key, b + eq, "\n" + tail);
    }
  }

  lemma LineText(b: string, b1: string, text: string, cr: string, tail: string)
    requires Blanks(b) && Blanks(b1) && ValueText(text) && Ending(cr)
    ensures var line := b + ("=" + (b1 + (text + cr)));
      b + ("=" + (b1 + (text + (cr + ("\n" + tail))))) == line + ("\n" + tail) && OneLine(line)
  {
    var a1, a2 := text + cr, b1 + (text + cr);
    Sequences.Regroup(text, cr, "\n" + tail);
    Sequences.Regroup(b1, a1, "\n" + tail);
    Sequences.Regroup("=", a2, "\n" + tail);
    Sequences.Regroup(b, "=" + a2, "\n" + tail);
  }

  /** A key that is too long is lost with its value. */
  lemma LongKeyLost(cfg: seq<Section>, b: string, key: string, rest: string, tail: string, line: string)
    requires Blanks(b) && |key| >= KEY_LEN && LegalKey(key[..KEY_LEN - 1]) && key[KEY_LEN - 1] != '=' && OneLine(key) && OneLine(rest)
    requires HasRoom(cfg) && line == key + (rest + ("\n" + tail))
    ensures ParseAll(cfg, b + line) == ParseAll(Opening(cfg), tail)
  {
    var k, left := key[..KEY_LEN - 1], key[KEY_LEN - 1..] + rest;
    assert line == k + (left + ("\n" + tail)) && line[0] == k[0] && "" + k == k;
    Indented(cfg, b, line);
    ScanKeyFull(k, left + ("\n" + tail), "");
    ToNewlineSkips(left, tail);
    KeyLineStep(cfg, line);
    KeyLineLost(cfg, line, k, left + ("\n" + tail), "\n" + tail);
    LineDone(cfg, line, Opening(cfg), tail);
  }

  /** What does not begin a comment, a header or another line. */
  predicate Begins(c: char) { !Blank(c) && c != '\n' && c != '\r' && c != '#' && c != ';' && c != '[' }

  /** A section that is full takes no more pairs. */
  lemma FullSection(cfg: seq<Section>, b: string, text: string, tail: string, line: string)
    requires Blanks(b) && text != "" && Begins(text[0]) && OneLine(text) && !HasRoom(cfg) && line == text + ("\n" + tail)
    ensures ParseAll(cfg, b + line) == ParseAll(cfg, tail)
  {
    assert line[0] == text[0];
    Indented(cfg, b, line);
    KeyLineStep(cfg, line);
    ToNewlineSkips(text, tail);
    LineDone(cfg, line, cfg, tail);
  }

  /** Of a section name that is too long the first 63 characters are kept. */
  lemma LongNameCut(cfg: seq<Section>, b: string, name: string, rest: string, tail: string, line: string)
    requires Blanks(b) && |name| == KEY_LEN - 1 && LegalName(name) && OneLine(rest) && |cfg| < MAX_SECTIONS
    requires line == "[" + (name + (rest + ("\n" + tail)))
    ensures ParseAll(cfg, b + line) == ParseAll(cfg + [Section(name, [])], tail)
  {
    var u := name + (rest + ("\n" + tail));
    assert line[1..] == u && SkipBlanks(line) == line;
    Indented(cfg, b, line);
    NameCut(name, rest + ("\n" + tail), KEY_LEN - 1);
    assert u[..|name|] == name && u[|name|..] == rest + ("\n" + tail);
    ToNewlineSkips(rest, tail);
    LineDone(cfg, line, cfg + [Section(name, [])], tail);
  }

  lemma {:induction false} NameCut(n: string, rest: string, room: nat)
    requires |n| == room && forall i | 0 <= i < |n| :: n[i] != ']' && n[i] != '\n'
    ensures NameLength(n + rest, room) == |n|
  {
    if n != "" {
      assert (n + rest)[0] == n[0] && (n + rest)[1..] == n[1..] + rest;
      NameCut(n[1..], rest, room - 1);
    }
  }

  /** A line whose key is not followed by '='. */
  lemma KeyLineLost(cfg: seq<Section>, t: string, key: string, rest: string, tail: string)
    requires HasRoom(cfg) && ScanKey(t, "") == Scan(key, rest) && rest != "" && rest[0] != '=' && ToNewline(rest) == tail
    ensures KeyLine(cfg, t) == (Opening(cfg), tail)
  {
  }

  /** A single word adds no pair. */
  lemma NoPair(cfg: seq<Section>, b: string, word: string, tail: string, line: string)
    requires Blanks(b) && LegalKey(word) && HasRoom(cfg) && line == word + ("\n" + tail)
    ensures ParseAll(cfg, b + line) == ParseAll(Opening(cfg), tail)
  {
    assert line[0] == word[0] && "" + word == word;
    Indented(cfg, b, line);
    KeyLineStep(cfg, line);
    ScanWord(word, tail, "");
    ToNewlineSkips("", tail);
    assert "" + ("\n" + tail) == "\n" + tail;
    KeyLineLost(cfg, line, word, "\n" + tail, "\n" + tail);
    LineDone(cfg, line, Opening(cfg), tail);
  }

  lemma {:induction false} ScanWord(k: string, tail: string, done: string)
    requires |done| + |k| < KEY_LEN && forall i | 0 <= i < |k| :: k[i] != '=' && k[i] != '\n' && !Blank(k[i])
    ensures ScanKey(k + ("\n" + tail), done) == Scan(done + k, "\n" + tail)
    decreases |k|
  {
    var t := k + ("\n" + tail);
    if k == "" {
      assert t == "\n" + tail && done + k == done;
    } else {
      assert t[0] == k[0] && t[1..] == k[1..] + ("\n" + tail);
      assert done + [k[0]] + k[1..] == done + k;
      ScanWord(k[1..], tail, done + [k[0]]);
    }
  }

  /** The text "k=v" with some blanks before '=': the pair is read with one and lost with two. */
  lemma WideGapLoses(gap: string, text: string)
    requires Blanks(gap) && text == "k" + (gap + "=v\n")
    ensures ParseAll([], text) == [Section("global", if |gap| <= 1 then [Pair("k", "v")] else [])]
  {
    SpelledOut(gap, text, "");
    PairReads([], "", "k", gap, "", "v", "", "", text);
    assert "" + text == text;
    LegalValueReads("v", "");
    assert "v" + "" == "v";
    AddedPair(Pair("k", "v"));
  }

  lemma SpelledOut(gap: string, text: string, none: string)
    requires text == "k" + (gap + "=v\n") && none == ""
    ensures text == "k" + (gap + ("=" + (none + ("v" + (none + ("\n" + none))))))
  {
    assert "=v\n" == "=" + (none + ("v" + (none + ("\n" + none))));
  }

  lemma AddedPair(p: Pair)
    ensures AddPair(Opening([]), p) == [Section("global", [p])]
  {
    var es: seq<Pair> := [];
    assert es + [p] == [p];
  }

  // ---- What is printed, and where a value is put ----

  lemma {:induction false} TextConcat(a: seq<Section>, b: seq<Section>)
    ensures Text(a + b) == Text(a) + Text(b)
    decreases |a|
  {
    if a == [] {
      assert a + b == b;
    } else {
      assert (a + b)[0] == a[0] && (a + b)[1..] == a[1..] + b;
      TextStarts(a + b);
      TextStarts(a);
      TextConcat(a[1..], b);
      Sequences.Regroup(SectionText(a[0]), Text(a[1..]), Text(b));
    }
  }

  /** Setting a value in a section that is not there yet adds lines to the end of the text. */
  lemma PutAppends(cfg: seq<Section>, section: string, key: string, val: string)
    requires FindSection(cfg, section) < 0 && section != "global"
    ensures Text(Put(cfg, section, key, val)) == Text(cfg) + ("[" + section + "]\n" + key + "=" + val + "\n\n")
  {
    var sec := Section(section, [Pair(key, val)]);
    TextConcat(cfg, [sec]);
    TextStarts([sec]);
    assert [sec][1..] == [] && Text([sec]) == SectionText(sec);
    NewSectionText(section, Pair(key, val));
  }

  lemma NewSectionText(section: string, p: Pair)
    requires section != "global"
    ensures SectionText(Section(section, [p])) == "[" + section + "]\n" + p.key + "=" + p.val + "\n\n"
  {
    OneEntry(p);
    var h, e := "[" + (section + "]\n"), p.key + "=" + p.val + "\n";
    SpellSection(section, p.key, p.val, h, e);
  }

  lemma SpellSection(section: string, key: string, val: string, h: string, e: string)
    requires h == "[" + (section + "]\n") && e == key + "=" + val + "\n"
    ensures h + (e + "\n") == "[" + section + "]\n" + key + "=" + val + "\n\n"
  {
    assert h + (e + "\n") == h + key + "=" + val + "\n\n";
  }

  /** The section `global` is printed without a header. */
  lemma GlobalText(p: Pair)
    ensures Text([Section("global", [p])]) == p.key + "=" + p.val + "\n\n"
  {
    var sec := Section("global", [p]);
    TextStarts([sec]);
    assert [sec][1..] == [] && Text([sec]) == SectionText(sec);
    OneEntry(p);
  }

  lemma OneEntry(p: Pair)
    ensures Entries([p]) == p.key + "=" + p.val + "\n"
  {
    assert [p][1..] == [];
  }

  /** There is room for an entry at `pos`, for the newline after its section and for the end of the string. */
  predicate Fits(p: Pair, pos: nat, size: nat) { pos + |p.key + "=" + p.val + "\n"| + 1 < size }

  /** Of section `full`, which has room for its header at `pos`, `kept` is printed: every entry that has room after those before
      it, up to the first that has none. */
  predicate Cut(full: Section, kept: Section, pos: nat, size: nat) {
    && (full.name == "global" || pos + |"[" + full.name + "]\n"| + 1 < size)
    && kept.name == full.name && kept.entries <= full.entries && CutEntries(full.entries, |kept.entries|, pos + |Header(full.name)|, size)
  }

  predicate CutEntries(es: seq<Pair>, n: nat, pos: nat, size: nat) {
    && n <= |es| && (forall k | 0 <= k < n :: Fits(es[k], pos + |Entries(es[..k])|, size))
    && (n < |es| ==> !Fits(es[n], pos + |Entries(es[..n])|, size))
  }

  lemma {:induction false} EntriesCut(es: seq<Pair>, pos: nat, size: nat)
    ensures CutEntries(es, EntriesKept(es, pos, size), pos, size)
    decreases |es|
  {
    var n := EntriesKept(es, pos, size);
    assert es[..0] == [];
    if n > 0 {
      var next := pos + |es[0].key| + |es[0].val| + 2;
      EntriesCut(es[1..], next, size);
      CutLonger(es, n, pos, next, size);
    }
  }

  lemma CutLonger(es: seq<Pair>, n: nat, pos: nat, next: nat, size: nat)
    requires n > 0 && es != [] && next == pos + |es[0].key| + |es[0].val| + 2
    requires CutEntries(es[1..], n - 1, next, size) && Fits(es[0], pos, size)
    ensures CutEntries(es, n, pos, size)
  {
    forall k | 0 < k <= |es| ensures pos + |Entries(es[..k])| == next + |Entries(es[1..][..k - 1])| { EntriesShift(es, k); }
    forall k | 0 <= k < n ensures Fits(es[k], pos + |Entries(es[..k])|, size) {
      if k > 0 { assert es[k] == es[1..][k - 1]; } else { assert es[..0] == []; }
    }
  }

  lemma EntriesShift(es: seq<Pair>, k: nat)
    requires 0 < k <= |es|
    ensures |Entries(es[..k])| == |es[0].key| + |es[0].val| + 2 + |Entries(es[1..][..k - 1])|
  {
    var head := es[..k];
    assert head[0] == es[0] && head[1..] == es[1..][..k - 1];
  }

  /** Section `j` is printed so where the text before it ends, or its header has no room there. */
  predicate CutAt(cfg: seq<Section>, kept: seq<Section>, pos: nat, size: nat, j: nat)
    requires j <= |kept| <= |cfg|
  {
    var at := pos + |Text(kept[..j])|;
    if j < |kept| then Cut(cfg[j], kept[j], at, size)
    else j < |cfg| ==> cfg[j].name != "global" && at + |"[" + cfg[j].name + "]\n"| + 1 >= size
  }

  /** What is printed into a buffer, piece by piece: of each section the entries that have room, and sections up to the first
      whose header has none. This determines it. */
  lemma {:induction false} KeptIsCut(cfg: seq<Section>, pos: nat, size: nat, j: nat) returns (kept: seq<Section>)
    requires j <= |Kept(cfg, pos, size)|
    ensures kept == Kept(cfg, pos, size) && CutAt(cfg, kept, pos, size, j)
    decreases j
  {
    if j == 0 {
      kept := FirstCut(cfg, pos, size);
    } else {
      var next;
      kept, next := RestKept(cfg, pos, size);
      var rest := KeptIsCut(cfg[1..], next, size, j - 1);
      CutLater(cfg, kept, pos, next, size, j);
    }
  }

  lemma FirstCut(cfg: seq<Section>, pos: nat, size: nat) returns (kept: seq<Section>)
    ensures kept == Kept(cfg, pos, size) && CutAt(cfg, kept, pos, size, 0)
  {
    kept := FirstKept(cfg, pos, size);
    var none := kept[..0];
    assert none == [] && |Text(none)| == 0;
    if kept != [] {
      var sec := SectionCut(cfg[0], pos, size);
    } else if cfg != [] {
      NotBegun(cfg[0], pos, size);
    }
  }

  lemma SectionCut(full: Section, pos: nat, size: nat) returns (sec: Section)
    requires Begun(full, pos, size)
    ensures sec == SectionKept(full, pos, size) && Cut(full, sec, pos, size)
  {
    sec := SectionKept(full, pos, size);
    EntriesCut(full.entries, pos + |Header(full.name)|, size);
  }

  lemma NotBegun(sec: Section, pos: nat, size: nat)
    requires !Begun(sec, pos, size)
    ensures sec.name != "global" && pos + |"[" + sec.name + "]\n"| + 1 >= size
  {
  }

  lemma FirstKept(cfg: seq<Section>, pos: nat, size: nat) returns (kept: seq<Section>)
    ensures kept == Kept(cfg, pos, size) && |kept| <= |cfg|
    ensures kept == [] <==> cfg == [] || !Begun(cfg[0], pos, size)
    ensures kept != [] ==> kept[0] == SectionKept(cfg[0], pos, size)
  {
    kept := Kept(cfg, pos, size);
  }

  lemma RestKept(cfg: seq<Section>, pos: nat, size: nat) returns (kept: seq<Section>, next: nat)
    requires Kept(cfg, pos, size) != []
    ensures kept == Kept(cfg, pos, size) && next == pos + |SectionText(kept[0])| && kept[1..] == Kept(cfg[1..], next, size)
  {
    kept := FirstKept(cfg, pos, size);
    next := pos + |SectionText(kept[0])|;
    var rest := Kept(cfg[1..], next, size);
    assert kept == [kept[0]] + rest;
  }

  lemma CutLater(cfg: seq<Section>, kept: seq<Section>, pos: nat, next: nat, size: nat, j: nat)
    requires 0 < j <= |kept| <= |cfg| && next == pos + |SectionText(kept[0])| && CutAt(cfg[1..], kept[1..], next, size, j - 1)
    ensures CutAt(cfg, kept, pos, size, j)
  {
    var head := kept[..j];
    TextStarts(head);
    assert head[0] == kept[0] && head[1..] == kept[1..][..j - 1];
  }

  function Keys(es: seq<Pair>): (ks: seq<string>)
    ensures |ks| == |es| && forall i | 0 <= i < |es| :: ks[i] == es[i].key
  {
    seq(|es|, i requires 0 <= i < |es| => es[i].key)
  }

  /** Entry `j` of section `i` is for this key of a section of this name. */
  predicate EntryAt(cfg: seq<Section>, section: string, key: string, i: int, j: int) {
    0 <= i < |cfg| && 0 <= j < |cfg[i].entries| && cfg[i].name == section && cfg[i].entries[j].key == key
  }

  /** What is looked up is the first such entry, in the order of the file. */
  lemma {:induction false} GetIsFirst(cfg: seq<Section>, section: string, key: string) returns (i: int, j: int)
    ensures Get(cfg, section, key).Some? ==>
      && EntryAt(cfg, section, key, i, j) && Get(cfg, section, key).value == cfg[i].entries[j].val
      && forall i', j' | EntryAt(cfg, section, key, i', j') :: i < i' || (i == i' && j <= j')
    ensures Get(cfg, section, key).None? ==> forall i', j' :: !EntryAt(cfg, section, key, i', j')
    decreases |cfg|
  {
    i, j := 0, 0;
    if cfg != [] {
      j := FindKey(cfg[0].entries, key);
      if cfg[0].name != section || j < 0 {
        var i1;
        i1, j := GetIsFirst(cfg[1..], section, key);
        i := i1 + 1;
        forall i', j' | EntryAt(cfg, section, key, i', j') ensures i' > 0 && EntryAt(cfg[1..], section, key, i' - 1, j') {}
        assert Get(cfg, section, key).Some? ==> EntryAt(cfg[1..], section, key, i1, j);
      }
    }
  }

  /** Setting a value leaves every section and key in its place, and puts a new one last. */
  lemma PutKeepsPlaces(cfg: seq<Section>, section: string, key: string, val: string)
    ensures var c' := Put(cfg, section, key, val); var i := FindSection(cfg, section);
      if i < 0 then c'[..|cfg|] == cfg && c'[|cfg|..] == [Section(section, [Pair(key, val)])]
      else
        && |c'| == |cfg| && (forall k | 0 <= k < |cfg| && k != i :: c'[k] == cfg[k]) && c'[i].name == section
        && Keys(c'[i].entries) == Keys(cfg[i].entries) + (if FindKey(cfg[i].entries, key) < 0 then [key] else [])
        && forall k | 0 <= k < |cfg[i].entries| && k != FindKey(cfg[i].entries, key) :: c'[i].entries[k] == cfg[i].entries[k]
  {
  }
}
