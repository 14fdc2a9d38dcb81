/**
 The section index of a report: where each section starts and ends, on which lines, and whether it belongs to the
 core, support or audit layer. Headings come from a pattern search; what is used of that search is stated in
 `AreHeadingMatches`. Keyword lists are arbitrary predicates on the normalised heading.
 */
module ReportSections {
  import opened Common
  import opened Text
  import opened SectionMarkers

  datatype HeadingMatch = HeadingMatch(start: nat, end: nat, level: nat, heading: string, normalized: string)

  datatype Keywords = Keywords(supportLayer: string -> bool, audit: string -> bool, support: string -> bool)

  datatype Section = Section(heading: string, normalized: string, level: nat, start: nat, end: nat,
                             lineStart: nat, lineEnd: nat, body: string, layer: Layer, key: Option<string>)

  /**
   What every match of the heading pattern has: it begins at the start of a line, possibly with blank lines, its
   first other character is a hash, and matches do not overlap.
   */
  ghost predicate AreHeadingMatches(md: string, matches: seq<HeadingMatch>) {
    && (forall k | 0 <= k < |matches| :: IsHeadingMatch(md, matches[k]))
    && (forall k, l | 0 <= k < l < |matches| :: matches[k].end <= matches[l].start)
  }

  ghost predicate IsHeadingMatch(md: string, m: HeadingMatch) {
    && m.start < m.end <= |md|
    && AtLineStart(md, m.start)
    && exists hash: nat :: m.start <= hash < m.end && FirstIs(md, m.start, hash, '#')
  }

  /** The first character from `from` on that is not white space is `c`, at `at`. */
  ghost predicate FirstIs(md: string, from: nat, at: nat, c: char) {
    from <= at < |md| && md[at] == c && forall i | from <= i < at :: IsSpace(md[i])
  }

  predicate AtLineStart(md: string, p: nat) {
    p <= |md| && (p == 0 || md[p - 1] == '\n')
  }

  // ---------------------------------------------------------------- lines

  /** How many line breaks precede `offset`. */
  function Breaks(md: string, offset: nat): nat
    requires offset <= |md|
  {
    if offset == 0 then 0 else Breaks(md, offset - 1) + (if md[offset - 1] == '\n' then 1 else 0)
  }

  function LineAt(md: string, offset: nat): nat
    requires offset <= |md|
  {
    Breaks(md, offset) + 1
  }

  function LineStart(md: string, p: nat): (start: nat)
    requires p <= |md|
    ensures start <= p && AtLineStart(md, start)
    ensures forall i | start <= i < p :: md[i] != '\n'
  {
    if p == 0 || md[p - 1] == '\n' then p else LineStart(md, p - 1)
  }

  lemma {:induction false} BreaksMonotone(md: string, p: nat, q: nat)
    requires p <= q <= |md|
    ensures Breaks(md, p) <= Breaks(md, q)
    ensures (exists i :: p <= i < q && md[i] == '\n') ==> Breaks(md, p) < Breaks(md, q)
  {
    if p < q { BreaksMonotone(md, p, q - 1); }
  }

  // ---------------------------------------------------------------- entries

  /** The marker on the line before a heading, and where that line starts. */
  function MarkerBefore(md: string, headingStart: nat): (r: (nat, Option<Marker>))
    requires headingStart <= |md|
    ensures r.0 <= headingStart
  {
    var lineEnd := if headingStart > 0 && md[headingStart - 1] == '\n' then headingStart - 1 else headingStart;
    var lineStart := LineStart(md, lineEnd);
    var marker := Parse(Strip(md[lineStart..lineEnd]));
    if marker.None? then (headingStart, None) else (lineStart, marker)
  }

  /** A heading together with its marker; with a marker the section starts on the marker's line. */
  datatype Entry = Entry(m: HeadingMatch, start: nat, marker: Option<Marker>)

  function EntryFor(md: string, m: HeadingMatch): Entry
    requires m.start <= |md|
  {
    var (start, marker) := MarkerBefore(md, m.start);
    Entry(m, start, marker)
  }

  function MarkerLayer(marker: Option<Marker>): Option<Layer> {
    if marker.Some? then marker.value.layer else None
  }

  // ---------------------------------------------------------------- layers

  function Classify(normalized: string, kw: Keywords, sticky: bool): Layer {
    if sticky then Audit
    else if kw.audit(normalized) then Audit
    else if kw.support(normalized) then Support
    else Core
  }

  /** The layer of one section and the sticky flag it leaves for the next one. */
  function LayerStep(marker: Option<Marker>, normalized: string, kw: Keywords, sticky: bool): (Layer, bool) {
    var layer := MarkerLayer(marker);
    var (first, flag) := if layer.Some? then (layer.value, !layer.value.Core?)
                         else (Classify(normalized, kw, sticky), sticky);
    if marker.None? && kw.supportLayer(normalized) then (Audit, true) else (first, flag)
  }

  /** The sticky flag before section `k`. */
  function StickyBefore(entries: seq<Entry>, kw: Keywords, k: nat): bool
    requires k <= |entries|
  {
    if k == 0 then false
    else LayerStep(entries[k - 1].marker, entries[k - 1].m.normalized, kw, StickyBefore(entries, kw, k - 1)).1
  }

  function SliceOf(md: string, from: nat, to: nat): string {
    if from <= to <= |md| then md[from..to] else []
  }

  function SectionEnd(md: string, entries: seq<Entry>, k: nat): nat
    requires k < |entries|
  {
    if k + 1 < |entries| then entries[k + 1].start else |md|
  }

  function Max(a: int, b: int): int { if a > b then a else b }

  /** The entries go up through the document, line start by line start. */
  ghost predicate Fits(md: string, entries: seq<Entry>) {
    && (forall k | 0 <= k < |entries| :: entries[k].start < |md| && AtLineStart(md, entries[k].start))
    && (forall k, l | 0 <= k < l < |entries| :: entries[k].start < entries[l].start)
  }

  function MakeSection(md: string, entry: Entry, end: nat, layer: Layer): Section
    requires entry.start < end <= |md|
  {
    var Entry(m, start, marker) := entry;
    Section(m.heading, m.normalized, m.level, start, end,
            LineAt(md, start), LineAt(md, Max(end - 1, start)), Strip(SliceOf(md, m.end, end)), layer,
            if marker.Some? then marker.value.key else None)
  }

  function LayerAt(entries: seq<Entry>, kw: Keywords, k: nat): Layer
    requires k < |entries|
  {
    LayerStep(entries[k].marker, entries[k].m.normalized, kw, StickyBefore(entries, kw, k)).0
  }

  function SectionAt(md: string, entries: seq<Entry>, kw: Keywords, k: nat): Section
    requires k < |entries| && entries[k].start < SectionEnd(md, entries, k) <= |md|
  {
    MakeSection(md, entries[k], SectionEnd(md, entries, k), LayerAt(entries, kw, k))
  }

  function EntriesOf(md: string, matches: seq<HeadingMatch>): (entries: seq<Entry>)
    requires forall i | 0 <= i < |matches| :: matches[i].start <= |md|
  {
    seq(|matches|, i requires 0 <= i < |matches| => EntryFor(md, matches[i]))
  }

  /** What the index of a document is. */
  ghost predicate IsIndexOf(sections: seq<Section>, md: string, entries: seq<Entry>, kw: Keywords) {
    && Fits(md, entries)
    && |sections| == |entries|
    && forall k | 0 <= k < |entries| :: sections[k] == SectionAt(md, entries, kw, k)
  }

  /** The section index, built heading by heading. */
  method BuildSectionIndex(md: string, matches: seq<HeadingMatch>, kw: Keywords) returns (sections: seq<Section>)
    requires AreHeadingMatches(md, matches)
    ensures IsIndexOf(sections, md, EntriesOf(md, matches), kw)
  {
    EntriesFit(md, matches);
    var entries := BuildEntries(md, matches);
    sections := BuildSections(md, entries, kw);
  }

  method BuildEntries(md: string, matches: seq<HeadingMatch>) returns (entries: seq<Entry>)
    requires forall i | 0 <= i < |matches| :: matches[i].start <= |md|
    ensures entries == EntriesOf(md, matches)
  {
    entries := [];
    for k := 0 to |matches|
      invariant |entries| == k
      invariant forall i | 0 <= i < k :: entries[i] == EntryFor(md, matches[i])
    {
      entries := entries + [EntryFor(md, matches[k])];
    }
  }

  /** The second loop of the builder: one section for each entry, with the flag carried along. */
  method BuildSections(md: string, entries: seq<Entry>, kw: Keywords) returns (sections: seq<Section>)
    requires Fits(md, entries)
    ensures IsIndexOf(sections, md, entries, kw)
  {
    hide MakeSection;
    sections := [];
    var sticky := false;
    for k := 0 to |entries|
      invariant |sections| == k
      invariant sticky == StickyBefore(entries, kw, k)
      invariant forall i | 0 <= i < k :: sections[i] == SectionAt(md, entries, kw, i)
    {
      var m, marker := entries[k].m, entries[k].marker;
      var end := if k + 1 < |entries| then entries[k + 1].start else |md|;
      var layer;
      if MarkerLayer(marker).Some? {
        layer := MarkerLayer(marker).value;
        sticky := layer.Support? || layer.Audit?;
      } else {
        layer := Classify(m.normalized, kw, sticky);
      }
      if marker.None? && kw.supportLayer(m.normalized) {
        sticky := true;
        layer := Audit;
      }
      sections := sections + [MakeSection(md, entries[k], end, layer)];
    }
  }

  // ---------------------------------------------------------------- tiling

  lemma ParseOpens(line: string)
    requires Parse(Strip(line)).Some?
    ensures Strip(line) != "" && Strip(line)[0] == '<'
  {
    var s := Strip(line);
    assert Inner(s).Some?;
    StripTwice(line);
    assert s[..|OPENING|][0] == OPENING[0];
  }

  /** The first character of a stripped text is its first character that is not white space. */
  lemma StripFirst(md: string, from: nat, to: nat)
    requires from <= to <= |md| && Strip(md[from..to]) != ""
    ensures exists at: nat :: at < to && FirstIs(md, from, at, Strip(md[from..to])[0])
  {
    var line := md[from..to];
    var skipped := TrimShape(line, IsSpace);
    assert forall i | from <= i < to :: md[i] == line[i - from];
    assert FirstIs(md, from, from + skipped, Strip(line)[0]);
  }

  lemma FirstIsUnique(md: string, from: nat, at: nat, c: char, at': nat, c': char)
    requires FirstIs(md, from, at, c) && FirstIs(md, from, at', c') && !IsSpace(c) && !IsSpace(c')
    ensures at == at' && c == c'
  {
  }

  /** The line of a marker begins after the start of every heading before it. */
  lemma MarkerLineIsAfter(md: string, heading: HeadingMatch, from: nat, to: nat)
    requires IsHeadingMatch(md, heading) && heading.start < to && from <= to <= |md|
    requires forall i | from <= i < to :: md[i] != '\n'
    requires Strip(md[from..to]) != "" && Strip(md[from..to])[0] == '<'
    ensures heading.start < from
  {
    StripFirst(md, from, to);
    var at: nat :| at < to && FirstIs(md, from, at, '<');
    var hash: nat :| heading.start <= hash < heading.end && FirstIs(md, heading.start, hash, '#');
    if from == heading.start {
      FirstIsUnique(md, from, at, '<', hash, '#');
    } else if from < heading.start {
      assert false;
    }
  }

  lemma NothingBeforeStart(md: string)
    ensures MarkerBefore(md, 0).1.None?
  {
    assert md[0..0] == "";
    assert Inner("").None?;
  }

  /** What `MarkerBefore` returns when it returns a marker. */
  lemma MarkerBeforeShape(md: string, headingStart: nat)
    requires headingStart <= |md| && AtLineStart(md, headingStart) && MarkerBefore(md, headingStart).1.Some?
    ensures var start := MarkerBefore(md, headingStart).0;
      && headingStart > 0 && start < headingStart && AtLineStart(md, start)
      && (forall i | start <= i < headingStart - 1 :: md[i] != '\n')
      && Strip(md[start..headingStart - 1]) != "" && Strip(md[start..headingStart - 1])[0] == '<'
  {
    if headingStart == 0 {
      NothingBeforeStart(md);
    } else {
      ParseOpens(md[LineStart(md, headingStart - 1)..headingStart - 1]);
    }
  }

  /** An entry starts after the start of every heading before it. */
  lemma EntryStartsAfter(md: string, previous: HeadingMatch, m: HeadingMatch)
    requires IsHeadingMatch(md, previous) && IsHeadingMatch(md, m) && previous.end <= m.start
    ensures previous.start < EntryFor(md, m).start
  {
    if MarkerBefore(md, m.start).1.Some? { MarkerStartsAfter(md, previous, m.start); }
  }

  lemma MarkerStartsAfter(md: string, previous: HeadingMatch, headingStart: nat)
    requires IsHeadingMatch(md, previous) && previous.end <= headingStart <= |md| && AtLineStart(md, headingStart)
    requires MarkerBefore(md, headingStart).1.Some?
    ensures previous.start < MarkerBefore(md, headingStart).0
  {
    MarkerBeforeShape(md, headingStart);
    HashLineIsLong(md, previous, headingStart);
    MarkerLineIsAfter(md, previous, MarkerBefore(md, headingStart).0, headingStart - 1);
  }

  /** A heading takes up more than the line break before the next one. */
  lemma HashLineIsLong(md: string, heading: HeadingMatch, next: nat)
    requires IsHeadingMatch(md, heading) && heading.end <= next <= |md| && AtLineStart(md, next)
    ensures heading.start < next - 1
  {
    var hash: nat :| heading.start <= hash < heading.end && FirstIs(md, heading.start, hash, '#');
    assert md[next - 1] == '\n';
  }

  lemma EntryAtLineStart(md: string, m: HeadingMatch)
    requires IsHeadingMatch(md, m)
    ensures EntryFor(md, m).start <= m.start && AtLineStart(md, EntryFor(md, m).start)
  {
    if EntryFor(md, m).marker.Some? { MarkerBeforeShape(md, m.start); }
  }

  lemma EntriesFit(md: string, matches: seq<HeadingMatch>)
    requires AreHeadingMatches(md, matches)
    ensures Fits(md, EntriesOf(md, matches))
  {
    forall k: nat | k < |matches|
      ensures EntryFor(md, matches[k]).start < |md| && AtLineStart(md, EntryFor(md, matches[k]).start)
    {
      EntryAtLineStart(md, matches[k]);
    }
    forall k: nat, l: nat | k < l < |matches|
      ensures EntryFor(md, matches[k]).start < EntryFor(md, matches[l]).start
    {
      EntryAtLineStart(md, matches[k]);
      EntryStartsAfter(md, matches[k], matches[l]);
    }
  }

  /** Each section ends where the next one starts, and they go up through the whole document. */
  lemma SectionsTile(sections: seq<Section>, md: string, entries: seq<Entry>, kw: Keywords)
    requires IsIndexOf(sections, md, entries, kw)
    ensures forall k | 0 <= k < |sections| :: sections[k].start < sections[k].end <= |md|
    ensures forall k, l | 0 <= k && l == k + 1 < |sections| :: sections[k].end == sections[l].start
    ensures sections != [] ==> sections[|sections| - 1].end == |md|
    ensures forall k | 0 <= k < |sections| :: AtLineStart(md, sections[k].start)
  {
  }

  ghost function Slices(sections: seq<Section>, md: string): string {
    if sections == [] then []
    else
      var n := |sections| - 1;
      Slices(sections[..n], md) + SliceOf(md, sections[n].start, sections[n].end)
  }

  lemma {:induction false} TilesConcatenate(sections: seq<Section>, md: string)
    requires sections != []
    requires forall k | 0 <= k < |sections| :: sections[k].start < sections[k].end <= |md|
    requires forall k, l | 0 <= k && l == k + 1 < |sections| :: sections[k].end == sections[l].start
    ensures sections[0].start <= sections[|sections| - 1].end
    ensures Slices(sections, md) == md[sections[0].start..sections[|sections| - 1].end]
  {
    var n := |sections| - 1;
    if n == 0 {
      assert sections[..0] == [];
      assert Slices(sections[..0], md) == [];
    } else {
      TilesConcatenate(sections[..n], md);
      JoinSlices(md, sections[0].start, sections[n].start, sections[n].end);
    }
  }

  lemma JoinSlices(md: string, from: nat, mid: nat, to: nat)
    requires from <= mid <= to <= |md|
    ensures md[from..mid] + md[mid..to] == md[from..to]
  {
  }

  /** The sections put together give back the document from the first section on. */
  lemma SectionsCoverDocument(sections: seq<Section>, md: string, entries: seq<Entry>, kw: Keywords)
    requires IsIndexOf(sections, md, entries, kw) && sections != []
    ensures sections[0].start <= |md| && Slices(sections, md) == md[sections[0].start..]
  {
    hide *;
    SectionsTile(sections, md, entries, kw);
    TilesConcatenate(sections, md);
  }

  // ---------------------------------------------------------------- lines of sections

  /** Sections take up adjacent, disjoint ranges of lines. */
  lemma SectionLinesTile(sections: seq<Section>, md: string, entries: seq<Entry>, kw: Keywords)
    requires IsIndexOf(sections, md, entries, kw)
    ensures forall k | 0 <= k < |sections| :: sections[k].lineStart <= sections[k].lineEnd
    ensures forall k, l | 0 <= k && l == k + 1 < |sections| :: sections[k].lineEnd + 1 == sections[l].lineStart
  {
    SectionsTile(sections, md, entries, kw);
    forall k: nat | k < |sections|
      ensures sections[k].lineStart <= sections[k].lineEnd
    {
      BreaksMonotone(md, sections[k].start, sections[k].end - 1);
    }
    forall k: nat, l: nat | l == k + 1 < |sections|
      ensures sections[k].lineEnd + 1 == sections[l].lineStart
    {
      assert md[sections[l].start - 1] == '\n';
    }
  }

  lemma {:induction false} LinesIncrease(sections: seq<Section>, k: nat, l: nat)
    requires forall i | 0 <= i < |sections| :: sections[i].lineStart <= sections[i].lineEnd
    requires forall i, j | 0 <= i && j == i + 1 < |sections| :: sections[i].lineEnd + 1 == sections[j].lineStart
    requires k < l < |sections|
    ensures sections[k].lineEnd < sections[l].lineStart
  {
    if k + 1 < l { LinesIncrease(sections, k, l - 1); }
  }

  /** The section that holds a line: the first whose range contains it. */
  function SectionForLine(sections: seq<Section>, line: nat): Option<Section> {
    if sections == [] then None
    else if sections[0].lineStart <= line <= sections[0].lineEnd then Some(sections[0])
    else SectionForLine(sections[1..], line)
  }

  lemma {:induction false} SectionForLineIs(sections: seq<Section>, line: nat, k: nat)
    requires k < |sections| && sections[k].lineStart <= line <= sections[k].lineEnd
    requires forall i | 0 <= i < k :: !(sections[i].lineStart <= line <= sections[i].lineEnd)
    ensures SectionForLine(sections, line) == Some(sections[k])
  {
    if k > 0 { SectionForLineIs(sections[1..], line, k - 1); }
  }

  lemma SectionLines(sections: seq<Section>, md: string, entries: seq<Entry>, kw: Keywords, k: nat)
    requires IsIndexOf(sections, md, entries, kw) && k < |sections|
    ensures sections[k].start < sections[k].end <= |md|
    ensures sections[k].lineStart == LineAt(md, sections[k].start)
    ensures sections[k].lineEnd == LineAt(md, sections[k].end - 1)
  {
    hide Breaks;
    SectionsTile(sections, md, entries, kw);
  }

  /**
   Looking up the line of a character finds the section the character is in, and that is the only section whose
   range holds the line.
   */
  lemma {:induction false} LineLookupFindsSection(sections: seq<Section>, md: string, entries: seq<Entry>, kw: Keywords,
                               k: nat, offset: nat)
    requires IsIndexOf(sections, md, entries, kw)
    requires k < |sections| && sections[k].start <= offset < sections[k].end && offset < |md|
    ensures SectionForLine(sections, LineAt(md, offset)) == Some(sections[k])
    ensures IsSupportOrAuditLine(sections, LineAt(md, offset)) <==> !sections[k].layer.Core?
    ensures forall l | 0 <= l < |sections| ::
      sections[l].lineStart <= LineAt(md, offset) <= sections[l].lineEnd <==> l == k
  {
    SectionLines(sections, md, entries, kw, k);
    hide IsIndexOf, Breaks;
    SectionsTile(sections, md, entries, kw);
    SectionLinesTile(sections, md, entries, kw);
    BreaksMonotone(md, sections[k].start, offset);
    BreaksMonotone(md, offset, sections[k].end - 1);
    assert sections[k].lineStart <= LineAt(md, offset) <= sections[k].lineEnd;
    hide LineAt, SectionForLine;
    forall l: nat | l < |sections| && l != k
      ensures !(sections[l].lineStart <= LineAt(md, offset) <= sections[l].lineEnd)
    {
      if l < k { LinesIncrease(sections, l, k); } else { LinesIncrease(sections, k, l); }
    }
    SectionForLineIs(sections, LineAt(md, offset), k);
  }

  function IsSupportOrAuditLine(sections: seq<Section>, line: nat): bool {
    var section := SectionForLine(sections, line);
    section.Some? && !section.value.layer.Core?
  }

  // ---------------------------------------------------------------- the core part

  /** The position of the first section that is not core. */
  function FirstSupport(sections: seq<Section>): (k: nat)
    ensures k <= |sections|
    ensures forall i | 0 <= i < k :: sections[i].layer.Core?
    ensures k < |sections| ==> !sections[k].layer.Core?
  {
    if sections == [] || !sections[0].layer.Core? then 0 else 1 + FirstSupport(sections[1..])
  }

  function StartingBefore(sections: seq<Section>, start: nat): seq<Section> {
    if sections == [] then []
    else (if sections[0].start < start then [sections[0]] else []) + StartingBefore(sections[1..], start)
  }

  function SectionsBeforeSupport(sections: seq<Section>): seq<Section> {
    var k := FirstSupport(sections);
    if k == |sections| then sections else StartingBefore(sections, sections[k].start)
  }

  lemma {:induction false} StartingBeforeIsPrefix(sections: seq<Section>, start: nat, k: nat)
    requires k <= |sections|
    requires forall i | 0 <= i < k :: sections[i].start < start
    requires forall i | k <= i < |sections| :: sections[i].start >= start
    ensures StartingBefore(sections, start) == sections[..k]
  {
    if sections != [] {
      if k > 0 {
        StartingBeforeIsPrefix(sections[1..], start, k - 1);
        assert sections[..k] == [sections[0]] + sections[1..][..k - 1];
      } else {
        StartingBeforeIsPrefix(sections[1..], start, 0);
      }
    }
  }

  lemma {:induction false} StartsIncrease(sections: seq<Section>, k: nat, l: nat)
    requires forall i | 0 <= i < |sections| :: sections[i].start < sections[i].end
    requires forall i, j | 0 <= i && j == i + 1 < |sections| :: sections[i].end == sections[j].start
    requires k < l < |sections|
    ensures sections[k].start < sections[l].start
  {
    if k + 1 < l { StartsIncrease(sections, k, l - 1); }
  }

  /** `SectionsBeforeSupport` is the longest prefix of core sections, although the code compares offsets. */
  lemma CorePrefix(sections: seq<Section>, md: string, entries: seq<Entry>, kw: Keywords)
    requires IsIndexOf(sections, md, entries, kw)
    ensures var core := SectionsBeforeSupport(sections);
      && core <= sections
      && (forall i | 0 <= i < |core| :: core[i].layer.Core?)
      && (|core| < |sections| ==> !sections[|core|].layer.Core?)
  {
    SectionsTile(sections, md, entries, kw);
    var k := FirstSupport(sections);
    if k < |sections| {
      forall i: nat | i < |sections|
        ensures i < k ==> sections[i].start < sections[k].start
        ensures i >= k ==> sections[i].start >= sections[k].start
      {
        if i < k { StartsIncrease(sections, i, k); } else if i > k { StartsIncrease(sections, k, i); }
      }
      StartingBeforeIsPrefix(sections, sections[k].start, k);
    }
  }

  // ---------------------------------------------------------------- which layer a section gets

  /** The section turns the sticky flag on, whatever it was before. */
  ghost predicate SetsSticky(e: Entry, kw: Keywords) {
    || (MarkerLayer(e.marker).Some? && !MarkerLayer(e.marker).value.Core?)
    || (e.marker.None? && kw.supportLayer(e.m.normalized))
  }

  ghost predicate ClearsSticky(e: Entry) { MarkerLayer(e.marker) == Some(Core) }

  /** Some section before `k` turned the flag on and none since has cleared it. */
  ghost predicate UnderSupport(entries: seq<Entry>, kw: Keywords, k: nat)
    requires k <= |entries|
  {
    exists j: nat :: LastSetter(entries, kw, k, j)
  }

  ghost predicate LastSetter(entries: seq<Entry>, kw: Keywords, k: nat, j: nat)
    requires k <= |entries|
  {
    j < k && SetsSticky(entries[j], kw) && forall i | j < i < k :: !ClearsSticky(entries[i])
  }

  lemma {:induction false} StickyMeansUnderSupport(entries: seq<Entry>, kw: Keywords, k: nat)
    requires k <= |entries|
    ensures StickyBefore(entries, kw, k) <==> UnderSupport(entries, kw, k)
  {
    if k > 0 {
      StickyMeansUnderSupport(entries, kw, k - 1);
      if SetsSticky(entries[k - 1], kw) {
        assert LastSetter(entries, kw, k, k - 1);
      } else if ClearsSticky(entries[k - 1]) {
        assert forall j: nat :: !LastSetter(entries, kw, k, j);
      } else {
        var n := k - 1;
        assert StickyBefore(entries, kw, k) == StickyBefore(entries, kw, n);
        if j: nat :| LastSetter(entries, kw, n, j) { assert LastSetter(entries, kw, k, j); }
        if j: nat :| LastSetter(entries, kw, k, j) { assert LastSetter(entries, kw, n, j); }
      }
    }
  }

  /**
   The layer of a section in terms of the document: its own marker decides; failing that a support-layer heading
   without any marker opens the audit part; failing that everything under support is audit; and only then the
   words of the heading count.
   */
  lemma LayerOfSection(sections: seq<Section>, md: string, entries: seq<Entry>, kw: Keywords, k: nat)
    requires IsIndexOf(sections, md, entries, kw) && k < |entries|
    ensures var Entry(m, _, marker) := entries[k];
      sections[k].layer ==
        if MarkerLayer(marker).Some? then MarkerLayer(marker).value
        else if (marker.None? && kw.supportLayer(m.normalized)) || UnderSupport(entries, kw, k) then Audit
        else if kw.audit(m.normalized) then Audit
        else if kw.support(m.normalized) then Support
        else Core
  {
    StickyMeansUnderSupport(entries, kw, k);
  }

  // ---------------------------------------------------------------- printed markers in a document

  /** A printed marker on the line before a heading is found, wherever in the document it stands. */
  lemma PrintedMarkerIsFound(before: string, key: string, layer: Layer, fold: string -> string, after: string)
    requires AtLineStart(before, |before|)
    ensures var comment := Print(key, layer, fold);
      var safe := SafeKey(key, fold);
      MarkerBefore(before + comment + "\n" + after, |before| + |comment| + 1)
        == (|before|, Some(Marker(if safe == "" then None else Some(safe), Some(layer))))
  {
    hide *;
    var comment := Print(key, layer, fold);
    PrintParseRoundTrip(key, layer, fold);
    PrintedShape(key, layer, fold);
    MarkerLineIsFound(before, comment, after);
  }

  lemma PrintedShape(key: string, layer: Layer, fold: string -> string)
    ensures var comment := Print(key, layer, fold);
      comment != "" && comment[0] == '<' && comment[|comment| - 1] == '>' && '\n' !in comment
  {
    SafeKeyIsSafe(key, fold);
    AttributesAreClosed(SafeKey(key, fold), layer);
    var attributes := Attributes(SafeKey(key, fold), layer);
    CommentShape(attributes);
    var front := OPENING + " " + TAG;
    assert '\n' !in front && '\n' !in CLOSING;
    assert Print(key, layer, fold) == front + attributes + CLOSING;
  }

  lemma MarkerLineIsFound(before: string, comment: string, after: string)
    requires AtLineStart(before, |before|) && '\n' !in comment && Parse(comment).Some?
    requires comment != "" && comment[0] == '<' && comment[|comment| - 1] == '>'
    ensures MarkerBefore(before + comment + "\n" + after, |before| + |comment| + 1) == (|before|, Parse(comment))
  {
    var md, lineEnd := before + comment + "\n" + after, |before| + |comment|;
    hide Parse, LineStart, Trim;
    DocumentShape(before, comment, after);
    LineStartIs(md, lineEnd, |before|);
    TrimKeeps(comment, IsSpace);
  }

  lemma DocumentShape(before: string, comment: string, after: string)
    requires AtLineStart(before, |before|) && '\n' !in comment
    ensures var md, lineEnd := before + comment + "\n" + after, |before| + |comment|;
      && lineEnd < |md| && md[lineEnd] == '\n' && md[|before|..lineEnd] == comment
      && AtLineStart(md, |before|)
      && forall i | |before| <= i < lineEnd :: md[i] != '\n'
  {
    var md := before + comment + "\n" + after;
    assert forall i | |before| <= i < |before| + |comment| :: md[i] == comment[i - |before|];
  }

  lemma {:induction false} LineStartIs(md: string, p: nat, start: nat)
    requires start <= p <= |md| && AtLineStart(md, start)
    requires forall i | start <= i < p :: md[i] != '\n'
    ensures LineStart(md, p) == start
  {
    if start < p { LineStartIs(md, p - 1, start); }
  }

  /** A heading with a printed marker above it gets the layer of the marker, whatever its title and its surroundings. */
  lemma PrintedMarkerDecidesLayer(sections: seq<Section>, before: string, key: string, layer: Layer,
                                  fold: string -> string, after: string, heading: HeadingMatch,
                                  entries: seq<Entry>, kw: Keywords, k: nat)
    requires AtLineStart(before, |before|) && k < |entries|
    requires heading.start == |before| + |Print(key, layer, fold)| + 1
    requires entries[k] == EntryFor(before + Print(key, layer, fold) + "\n" + after, heading)
    requires IsIndexOf(sections, before + Print(key, layer, fold) + "\n" + after, entries, kw)
    ensures sections[k].layer == layer && sections[k].start == |before|
  {
    PrintedMarkerIsFound(before, key, layer, fold, after);
    hide Print, MarkerBefore, LayerAt, AtLineStart, Fits, SafeKey;
    var md := before + Print(key, layer, fold) + "\n" + after;
    SectionFromEntry(sections, md, entries, kw, k);
    MarkerDecidesLayer(entries, kw, k, layer);
  }

  lemma SectionFromEntry(sections: seq<Section>, md: string, entries: seq<Entry>, kw: Keywords, k: nat)
    requires IsIndexOf(sections, md, entries, kw) && k < |entries|
    ensures sections[k].layer == LayerAt(entries, kw, k) && sections[k].start == entries[k].start
  {
    hide LayerAt;
  }

  lemma MarkerDecidesLayer(entries: seq<Entry>, kw: Keywords, k: nat, layer: Layer)
    requires k < |entries| && MarkerLayer(entries[k].marker) == Some(layer)
    ensures LayerAt(entries, kw, k) == layer
  {
  }

  // ---------------------------------------------------------------- the body of a section

  ghost predicate AllSpace(md: string, from: nat, to: nat)
    requires to <= |md|
  {
    forall i | from <= i < to :: IsSpace(md[i])
  }

  /** The body stands at `p` in the document and neither begins nor ends with white space. */
  ghost predicate BodyAt(md: string, section: Section, p: nat) {
    && p + |section.body| <= |md| && md[p..p + |section.body|] == section.body
    && (section.body != "" ==> !IsSpace(section.body[0]) && !IsSpace(section.body[|section.body| - 1]))
  }

  /**
   What the body of a section is: what stands between its heading and its end, but for white space at either end.
   Heading, normalised heading, level and key are those of the entry.
   */
  lemma SectionHoldsItsText(sections: seq<Section>, md: string, entries: seq<Entry>, kw: Keywords, k: nat)
    requires IsIndexOf(sections, md, entries, kw) && k < |sections|
    ensures var section, m := sections[k], entries[k].m;
      && section.heading == m.heading && section.normalized == m.normalized && section.level == m.level
      && section.key == (if entries[k].marker.Some? then entries[k].marker.value.key else None)
      && section.start == entries[k].start && section.end <= |md|
      && (m.end <= section.end ==> exists p: nat ::
            && m.end <= p && BodyAt(md, section, p) && p + |section.body| <= section.end
            && AllSpace(md, m.end, p) && AllSpace(md, p + |section.body|, section.end))
      && (m.end > section.end ==> section.body == "")
  {
    hide LayerAt, Breaks, AtLineStart;
    var section, m := sections[k], entries[k].m;
    SectionsTile(sections, md, entries, kw);
    if m.end <= section.end {
      var text := md[m.end..section.end];
      var from := TrimShape(text, IsSpace);
      assert section.body == Strip(text);
      assert forall i | m.end <= i < section.end :: md[i] == text[i - m.end];
      var p := m.end + from;
      assert BodyAt(md, section, p);
    } else {
      assert section.body == Strip("");
    }
  }
}
