/** A configuration file in memory: the parser's and serializer's loops, lookup and update in place. */
module Config {
  import opened Ini
  import opened Wrappers
  import Sequences

  /** Printing the first section gets nearer to what is to be printed. */
  lemma {:induction false} KeptNext(cfg: seq<Section>, out: string, size: nat, sec: string, rest: string, all: string)
    requires cfg != [] && Begun(cfg[0], |out|, size)
    requires sec == SectionText(SectionKept(cfg[0], |out|, size))
    requires rest == Text(Kept(cfg[1..], |out + sec|, size)) && all == Text(Kept(cfg, |out|, size))
    ensures (out + sec) + rest == out + all
  {
    KeptStarts(cfg, |out|, size);
    assert |out + sec| == |out| + |sec|;
    assert all == sec + rest;
    Sequences.Regroup(out, sec, rest);
  }

  /** Printing one entry after `out` and the others after that is printing them all after `out`. */
  lemma EntryNext(out: string, p: Pair, rest: string)
    ensures (out + p.key + "=" + p.val + "\n") + rest == out + (p.key + ("=" + (p.val + ("\n" + rest))))
  {
  }

  /** What remains to be printed after `out` leads to `goal`; stated so that it is passed on without unfolding. */
  ghost predicate Printing(out: string, rest: seq<Section>, size: nat, goal: string) {
    forall u: bool {:trigger PrintingAt(out, rest, size, goal, u)} :: PrintingAt(out, rest, size, goal, u)
  }

  ghost predicate PrintingAt(out: string, rest: seq<Section>, size: nat, goal: string, u: bool) {
    out + Text(Kept(rest, |out|, size)) == goal
  }

  lemma PrintingStarts(cfg: seq<Section>, size: nat) returns (goal: string)
    ensures goal == Text(Kept(cfg, 0, size)) && Printing("", cfg, size, goal)
  {
    goal := Text(Kept(cfg, 0, size));
    assert "" + goal == goal;
  }

  lemma PrintingEnds(out: string, rest: seq<Section>, size: nat, goal: string)
    requires Printing(out, rest, size, goal) && rest == []
    ensures out == goal
  {
    assert PrintingAt(out, rest, size, goal, true);
  }

  /** Header, entries and newline after `out` are the section's text after `out`. */
  lemma SectionPrinted(sec: Section, out: string, size: nat)
    ensures var h, kept := Header(sec.name), SectionKept(sec, |out|, size);
      && kept.entries == sec.entries[..EntriesKept(sec.entries, |out + h|, size)]
      && (out + h + Entries(kept.entries)) + "\n" == out + SectionText(kept)
  {
    var h, e := Header(sec.name), Entries(SectionKept(sec, |out|, size).entries);
    Sequences.Regroup(out + h, e, "\n");
    Sequences.Regroup(out, h, e + "\n");
  }

  class ConfigFile {
    var sections: seq<Section>
    var dirty: bool

    constructor ()
      ensures sections == [] && !dirty
    {
      sections, dirty := [], false;
    }

    // ---- Parsing ----

    method SkipBlanksAt(buf: string, p: nat) returns (q: nat)
      requires p <= |buf|
      ensures p <= q <= |buf| && buf[q..] == SkipBlanks(buf[p..])
    {
      q := p;
      while q < |buf| && Blank(buf[q])
        invariant p <= q <= |buf| && SkipBlanks(buf[p..]) == SkipBlanks(buf[q..])
      {
        assert buf[q..][1..] == buf[q + 1..];
        q := q + 1;
      }
    }

    method NewlineAt(buf: string, p: nat) returns (q: nat)
      requires p <= |buf|
      ensures p <= q <= |buf| && buf[q..] == ToNewline(buf[p..])
    {
      q := p;
      while q < |buf| && buf[q] != '\n'
        invariant p <= q <= |buf| && ToNewline(buf[p..]) == ToNewline(buf[q..])
      {
        assert buf[q..][1..] == buf[q + 1..];
        q := q + 1;
      }
    }

    method NameAt(buf: string, p: nat) returns (name: string, q: nat)
      requires p <= |buf|
      ensures var n := NameLength(buf[p..], KEY_LEN - 1); q == p + n <= |buf| && name == buf[p..][..n]
    {
      q := p;
      name := "";
      while q < |buf| && buf[q] != ']' && buf[q] != '\n' && |name| < KEY_LEN - 1
        invariant p <= q <= |buf| && name == buf[p..q] && |name| <= KEY_LEN - 1
        invariant NameLength(buf[p..], KEY_LEN - 1) == |name| + NameLength(buf[q..], KEY_LEN - 1 - |name|)
      {
        assert buf[q..][1..] == buf[q + 1..];
        name, q := name + [buf[q]], q + 1;
      }
    }

    method KeyAt(buf: string, p: nat) returns (key: string, q: nat)
      requires p <= |buf|
      ensures q <= |buf| && ScanKey(buf[p..], "") == Scan(key, buf[q..])
    {
      q := p;
      key := "";
      while q < |buf| && buf[q] != '=' && buf[q] != '\n' && |key| < KEY_LEN - 1
        invariant p <= q <= |buf| && ScanKey(buf[p..], "") == ScanKey(buf[q..], key)
      {
        var c := buf[q];
        assert buf[q..][1..] == buf[q + 1..];
        q := q + 1;
        if !Blank(c) {
          key := key + [c];
        } else if |key| > 0 {
          return;
        }
      }
    }

    method ValAt(buf: string, p: nat) returns (val: string, q: nat)
      requires p <= |buf|
      ensures var n := ValLength(buf[p..], VAL_LEN - 1); q == p + n <= |buf| && val == TrimEnd(buf[p..][..n])
    {
      q := p;
      val := "";
      while q < |buf| && buf[q] != '\n' && buf[q] != '\r' && |val| < VAL_LEN - 1
        invariant p <= q <= |buf| && val == buf[p..q] && |val| <= VAL_LEN - 1
        invariant ValLength(buf[p..], VAL_LEN - 1) == |val| + ValLength(buf[q..], VAL_LEN - 1 - |val|)
      {
        assert buf[q..][1..] == buf[q + 1..];
        val, q := val + [buf[q]], q + 1;
      }
      assert val == buf[p..][..q - p];
      val := Trim(val);
    }

    method Trim(v: string) returns (r: string)
      ensures r == TrimEnd(v)
    {
      var i := |v|;
      assert v[..i] == v;
      while i > 0 && Blank(v[i - 1])
        invariant 0 <= i <= |v| && TrimEnd(v) == TrimEnd(v[..i])
      {
        assert v[..i][..i - 1] == v[..i - 1];
        i := i - 1;
      }
      r := v[..i];
    }

    /** The pair on the line at `p`, with an empty key if there is none. */
    method PairAt(buf: string, p: nat) returns (key: string, val: string, q: nat)
      requires p <= |buf|
      ensures q <= |buf|
      ensures var k := ScanKey(buf[p..], "");
        if k.rest != "" && k.rest[0] == '=' then
          var v := SkipBlanks(k.rest[1..]);
          var n := ValLength(v, VAL_LEN - 1);
          key == k.text && val == TrimEnd(v[..n]) && buf[q..] == v[n..]
        else key == "" && buf[q..] == k.rest
    {
      key, q := KeyAt(buf, p);
      val := "";
      if q < |buf| && buf[q] == '=' {
        assert buf[q..][1..] == buf[q + 1..];
        val, q := ValueAfter(buf, q + 1);
      } else {
        key := "";
      }
    }

    /** The trimmed value that starts at `p`. */
    method ValueAfter(buf: string, p: nat) returns (val: string, q: nat)
      requires p <= |buf|
      ensures q <= |buf|
      ensures var v := SkipBlanks(buf[p..]); var n := ValLength(v, VAL_LEN - 1);
        val == TrimEnd(v[..n]) && buf[q..] == v[n..]
    {
      var at := SkipBlanksAt(buf, p);
      val, q := ValAt(buf, at);
      assert buf[at..][q - at..] == buf[q..];
    }

    /** A key line at `p`. */
    method KeyLineAt(buf: string, p: nat) returns (q: nat)
      requires p <= |buf|
      modifies this`sections
      ensures q <= |buf| && (sections, buf[q..]) == KeyLine(old(sections), buf[p..])
    {
      if sections == [] { sections := [Section("global", [])]; }
      q := p;
      if |sections[|sections| - 1].entries| < MAX_KEYS {
        var key, val;
        key, val, q := PairAt(buf, p);
        if key != "" { sections := AddPair(sections, Pair(key, val)); }
      }
      q := NewlineAt(buf, q);
    }

    /** One turn of the parser. */
    method StepAt(buf: string, p: nat) returns (q: nat)
      requires p < |buf|
      modifies this`sections
      ensures p < q <= |buf| && (sections, buf[q..]) == Step(old(sections), buf[p..])
    {
      ghost var before := sections;
      q := SkipBlanksAt(buf, p);
      if q < |buf| && (buf[q] == '\n' || buf[q] == '\r') {
        assert buf[q..][1..] == buf[q + 1..];
        q := q + 1;
      } else if q < |buf| && (buf[q] == '#' || buf[q] == ';') {
        q := NewlineAt(buf, q);
      } else if q < |buf| && buf[q] == '[' {
        assert buf[q..][1..] == buf[q + 1..];
        q := HeaderAt(buf, q + 1);
      } else {
        q := KeyLineAt(buf, q);
      }
      assert |buf[q..]| == |Step(before, buf[p..]).1|;
    }

    /** A section header whose bracket ends at `p`. */
    method HeaderAt(buf: string, p: nat) returns (q: nat)
      requires p <= |buf|
      modifies this`sections
      ensures q <= |buf|
      ensures var u := buf[p..]; var n := NameLength(u, KEY_LEN - 1);
        if |old(sections)| >= MAX_SECTIONS then sections == old(sections) && buf[q..] == ToNewline(u)
        else sections == old(sections) + [Section(u[..n], [])] && buf[q..] == ToNewline(u[n..])
    {
      q := p;
      if |sections| < MAX_SECTIONS {
        var name;
        name, q := NameAt(buf, p);
        assert buf[p..][q - p..] == buf[q..];
        sections := sections + [Section(name, [])];
      }
      q := NewlineAt(buf, q);
    }

    /** Reads a whole text, whatever it is. */
    method Parse(buf: string)
      modifies this
      ensures sections == ParseAll([], buf) && !dirty
      ensures Legal(sections)
    {
      sections, dirty := [], false;
      var p := 0;
      assert buf[0..] == buf;
      while p < |buf|
        invariant 0 <= p <= |buf| && !dirty && ParseAll([], buf) == ParseAll(sections, buf[p..])
      {
        p := StepAt(buf, p);
      }
      ParseLegal([], buf);
    }

    // ---- Printing ----

    /** Prints into a buffer of `size` bytes what fits of each section in turn; the whole text whenever that fits. */
    method Serialize(size: nat) returns (out: string)
      ensures out == Text(Kept(sections, 0, size))
      ensures |Text(sections)| < size ==> out == Text(sections)
      ensures |out| <= size <==> !Overruns(sections, size)
    {
      if |Text(sections)| < size { AllKept(sections, 0, size); }
      KeptFits(sections, size);
      out := PrintAll(size);
    }

    method PrintAll(size: nat) returns (out: string)
      ensures out == Text(Kept(sections, 0, size))
    {
      out := "";
      var s := 0;
      ghost var goal := PrintingStarts(sections, size);
      assert sections[0..] == sections;
      while s < |sections|
        invariant 0 <= s <= |sections| && Printing(out, sections[s..], size, goal)
      {
        var go;
        go, out := PrintNext(s, out, size, goal);
        if !go { return; }
        s := s + 1;
      }
      PrintingEnds(out, sections[s..], size, goal);
    }

    /** Section `s` after `out`, on the way to `goal`. */
    method PrintNext(s: nat, out: string, size: nat, ghost goal: string) returns (go: bool, r: string)
      requires s < |sections| && Printing(out, sections[s..], size, goal)
      ensures if go then Printing(r, sections[s + 1..], size, goal) else r == goal
    {
      assert PrintingAt(out, sections[s..], size, goal, true);
      assert sections[s..][1..] == sections[s + 1..] && sections[s..][0] == sections[s];
      go, r := PrintSection(sections[s], out, size);
      if go {
        ghost var sec := SectionText(SectionKept(sections[s], |out|, size));
        KeptNext(sections[s..], out, size, sec, Text(Kept(sections[s + 1..], |r|, size)), Text(Kept(sections[s..], |out|, size)));
      }
    }

    /** One section after `out`; nothing, and no more sections, if its header does not fit. */
    method PrintSection(sec: Section, out: string, size: nat) returns (go: bool, r: string)
      ensures go == Begun(sec, |out|, size)
      ensures r == if go then out + SectionText(SectionKept(sec, |out|, size)) else out
    {
      go, r := PrintHeader(sec.name, out, size);
      if !go { return; }
      r := PrintEntries(sec.entries, r, size);
      SectionPrinted(sec, out, size);
      r := r + "\n";
    }

    /** The header after `out`, if it fits; that of `global` is empty. */
    method PrintHeader(name: string, out: string, size: nat) returns (go: bool, r: string)
      ensures go == (name == "global" || |out| + |name| + 4 < size)
      ensures r == if go then out + Header(name) else out
    {
      if name == "global" { return true, out; }
      if |out| + |name| + 4 >= size { return false, out; }
      r := out + "[" + name + "]\n";
      Sequences.Regroup(out + "[", name, "]\n");
      Sequences.Regroup(out, "[", name + "]\n");
      go := true;
    }

    /** Entries after `out`, up to the first that does not fit. */
    method PrintEntries(es: seq<Pair>, out: string, size: nat) returns (r: string)
      ensures r == out + Entries(es[..EntriesKept(es, |out|, size)])
    {
      r := out;
      var k := 0;
      ghost var n := EntriesKept(es, |out|, size);
      assert es[0..n] == es[..n] && es[0..] == es;
      while k < |es|
        invariant 0 <= k <= n <= |es| && r + Entries(es[k..n]) == out + Entries(es[..n])
        invariant EntriesKept(es[k..], |r|, size) == n - k
      {
        assert es[k..][1..] == es[k + 1..];
        if |r| + (|es[k].key| + |es[k].val| + 3) >= size {
          assert es[k..n] == [];
          return;
        }
        EntryNext(r, es[k], Entries(es[k + 1..n]));
        assert es[k..n][1..] == es[k + 1..n];
        r := r + es[k].key + "=" + es[k].val + "\n";
        k := k + 1;
      }
      assert es[k..n] == [];
    }

    // ---- Lookup and update ----

    method FindSectionAt(name: string) returns (i: int)
      ensures i == FindSection(sections, name)
    {
      i := 0;
      while i < |sections|
        invariant 0 <= i <= |sections| && forall k | 0 <= k < i :: sections[k].name != name
      {
        if sections[i].name == name { return; }
        i := i + 1;
      }
      i := -1;
    }

    method FindKeyIn(es: seq<Pair>, key: string) returns (i: int)
      ensures i == FindKey(es, key)
    {
      i := 0;
      while i < |es|
        invariant 0 <= i <= |es| && forall k | 0 <= k < i :: es[k].key != key
      {
        if es[i].key == key { return; }
        i := i + 1;
      }
      i := -1;
    }

    method Lookup(section: string, key: string) returns (r: Option<string>)
      ensures r == Get(sections, section, key)
    {
      var s := 0;
      while s < |sections|
        invariant 0 <= s <= |sections| && Get(sections, section, key) == Get(sections[s..], section, key)
      {
        assert sections[s..][1..] == sections[s + 1..];
        if sections[s].name == section {
          var k := FindKeyIn(sections[s].entries, key);
          if k >= 0 { return Some(sections[s].entries[k].val); }
        }
        s := s + 1;
      }
      return None;
    }

    /** Sets a value; refused, changing nothing, exactly when there is no room. */
    method Set(section: string, key: string, val: string) returns (ok: bool)
      requires |section| < KEY_LEN && |key| < KEY_LEN && |val| < VAL_LEN
      modifies this
      ensures ok == Room(old(sections), section, key)
      ensures sections == if ok then Put(old(sections), section, key, val) else old(sections)
      ensures dirty == (ok || old(dirty))
      ensures ok ==> forall s, q :: Get(sections, s, q) == if s == section && q == key then Some(val) else Get(old(sections), s, q)
    {
      ghost var before := sections;
      var i := FindSectionAt(section);
      if i < 0 {
        if |sections| >= MAX_SECTIONS { return false; }
        sections := sections + [Section(section, [])];
        i := |sections| - 1;
        assert sections[i].entries == [];
      }
      var es := sections[i].entries;
      var k := FindKeyIn(es, key);
      if k >= 0 {
        sections := sections[i := Section(section, es[k := Pair(key, val)])];
      } else {
        if |es| >= MAX_KEYS { return false; }
        sections := sections[i := Section(section, es + [Pair(key, val)])];
      }
      dirty := true;
      assert [] + [Pair(key, val)] == [Pair(key, val)];
      assert sections == Put(before, section, key, val);
      forall s, q
        ensures Get(sections, s, q) == if s == section && q == key then Some(val) else Get(before, s, q)
      {
        PutIsUpdate(before, section, key, val, s, q);
      }
      return true;
    }
  }
}
