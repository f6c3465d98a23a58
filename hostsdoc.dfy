/** What each step of the hosts manager (pkg/hosts/manager.go) does to the
    document, written as functions on the entry list and on the file's
    lines. The class in module HostsManager is proved to compute exactly
    these; the properties of the steps are proved here. */
module HostsDocument {
  import opened Wrappers
  import opened GoStrings
  import opened Errors
  import opened HostsEntries

  const OpenComment: string := "Added by Cloud::1"
  const CloseComment: string := "End of Cloud::1 section"
  const EntryMark: string := "cloud::1"

  /** The sentinel lines Add writes: `# ` followed by the comment text. */
  const OpenLine: string := "# " + OpenComment
  const CloseLine: string := "# " + CloseComment

  // ---------------------------------------------------------------------
  // Sentinels
  // ---------------------------------------------------------------------

  /** normaliseComment: drop the first `#`, then trim white space. */
  function NormaliseComment(raw: string): string {
    TrimSpace(RemoveFirst(raw, CommentChar))
  }

  predicate IsOpenLine(raw: string) {
    IsCommentLine(raw) && NormaliseComment(raw) == OpenComment
  }

  predicate IsCloseLine(raw: string) {
    IsCommentLine(raw) && NormaliseComment(raw) == CloseComment
  }

  /** isOpenCommentEntry. */
  predicate IsOpenCommentEntry(e: Entry) {
    IsOpenLine(e.raw)
  }

  /** isCloseCommentEntry. */
  predicate IsCloseCommentEntry(e: Entry) {
    IsCloseLine(e.raw)
  }

  predicate IsSentinel(e: Entry) {
    IsOpenCommentEntry(e) || IsCloseCommentEntry(e)
  }

  /** A comment line is read by the text after its `#`, whatever white space
      surrounds the `#` and the text. */
  lemma CommentText(raw: string, i: nat)
    requires i < |raw| && raw[i] == CommentChar && AllSpace(raw[..i])
    ensures IsCommentLine(raw)
    ensures NormaliseComment(raw) == TrimSpace(raw[i + 1..])
  {
    HashAfterSpace(raw, i);
    assert CommentChar !in raw[..i] by {
      assert !IsSpace(CommentChar);
    }
    RemoveFirstAt(raw, CommentChar, i);
    TrimLeftSpaces(raw[..i], raw[i + 1..]);
  }

  /** The lines Add writes are the sentinels load recognises. */
  lemma SentinelLines()
    ensures IsOpenLine(OpenLine) && !IsCloseLine(OpenLine)
    ensures IsCloseLine(CloseLine) && !IsOpenLine(CloseLine)
  {
    OpenLineIsOpen();
    CloseLineIsClose();
  }

  /** The entries Add writes for the sentinels are well-formed comments. */
  lemma SentinelEntries()
    ensures IsOpenCommentEntry(OpenEntry) && IsCloseCommentEntry(CloseEntry)
    ensures IsComment(OpenEntry) && IsComment(CloseEntry)
    ensures WellFormed(OpenEntry) && WellFormed(CloseEntry)
  {
    SentinelLines();
  }

  lemma OpenLineIsOpen()
    ensures IsOpenLine(OpenLine) && !IsCloseLine(OpenLine)
  {
    SentinelLine(OpenComment);
    assert |OpenComment| != |CloseComment|;
  }

  lemma CloseLineIsClose()
    ensures IsCloseLine(CloseLine) && !IsOpenLine(CloseLine)
  {
    SentinelLine(CloseComment);
    assert |OpenComment| != |CloseComment|;
  }

  lemma SentinelLine(text: string)
    requires text != [] && !IsSpace(text[0]) && !IsSpace(text[|text| - 1])
    ensures IsCommentLine("# " + text)
    ensures NormaliseComment("# " + text) == text
  {
    SentinelHash(text);
    SpaceThenText(text);
  }

  /** "# text" is a comment line whose `#` comes first. */
  lemma SentinelHash(text: string)
    ensures IsCommentLine("# " + text)
    ensures RemoveFirst("# " + text, CommentChar) == " " + text
  {
    var rest := " " + text;
    var line := [CommentChar] + rest;
    assert line == "# " + text;
    assert line[1..] == rest;
  }

  /** One leading space around text that neither starts nor ends with white
      space is all TrimSpace removes. */
  lemma SpaceThenText(text: string)
    requires text != [] && !IsSpace(text[0]) && !IsSpace(text[|text| - 1])
    ensures TrimSpace(" " + text) == text
  {
    var rest := " " + text;
    assert rest[1..] == text;
    TrimLeftOfNonSpace(text);
    assert TrimLeft(rest) == text;
  }

  /** A line is never both sentinels. */
  lemma SentinelsExclusive(raw: string)
    ensures !(IsOpenLine(raw) && IsCloseLine(raw))
  {
  }

  // ---------------------------------------------------------------------
  // load
  // ---------------------------------------------------------------------

  datatype LineKind = OpenSentinel | CloseSentinel | OtherLine

  /** How load classifies a line; the open test comes first. */
  function KindOf(raw: string): LineKind {
    if IsOpenLine(raw) then OpenSentinel
    else if IsCloseLine(raw) then CloseSentinel
    else OtherLine
  }

  function Kinds(lines: seq<string>): (r: seq<LineKind>)
    ensures |r| == |lines|
    ensures forall i :: 0 <= i < |lines| ==> r[i] == KindOf(lines[i])
  {
    seq(|lines|, i requires 0 <= i < |lines| => KindOf(lines[i]))
  }

  lemma KindsPrefix(lines: seq<string>, n: nat)
    requires n <= |lines|
    ensures Kinds(lines[..n]) == Kinds(lines)[..n]
  {
  }

  /** Whether load is inside the section after reading lines of these kinds:
      an open sentinel enters it, a close sentinel leaves it. */
  function InSectionAfter(ks: seq<LineKind>): bool {
    if ks == [] then false
    else if ks[|ks| - 1] == OpenSentinel then true
    else if ks[|ks| - 1] == CloseSentinel then false
    else InSectionAfter(ks[..|ks| - 1])
  }

  /** The entries load appends for these lines: each line parsed, and marked
      when it is read inside the section. */
  function LoadEntries(isIP: string -> bool, lines: seq<string>): (r: seq<Entry>)
    ensures |r| == |lines|
  {
    if lines == [] then []
    else
      var e := NewEntry(isIP, lines[|lines| - 1]);
      LoadEntries(isIP, lines[..|lines| - 1]) +
        [if InSectionAfter(Kinds(lines)) then Mark(e, EntryMark) else e]
  }

  /** hasCloudUnoSection after load: both sentinels were read. */
  predicate SectionSeen(lines: seq<string>) {
    OpenSentinel in Kinds(lines) && CloseSentinel in Kinds(lines)
  }

  /** Position `i` is inside the section: an open sentinel at or before it,
      and no close sentinel after that one up to and including `i`. */
  predicate OpenedAt(ks: seq<LineKind>, i: int)
    requires 0 <= i < |ks|
  {
    exists j :: 0 <= j <= i && ks[j] == OpenSentinel &&
      forall k :: j < k <= i ==> ks[k] != CloseSentinel
  }

  lemma {:induction false} InSectionAfterMeans(ks: seq<LineKind>)
    requires ks != []
    ensures InSectionAfter(ks) <==> OpenedAt(ks, |ks| - 1)
    decreases |ks|
  {
    var n := |ks| - 1;
    if ks[n] == OpenSentinel {
      assert OpenedAt(ks, n);
    } else if ks[n] == CloseSentinel {
      forall j | 0 <= j <= n && ks[j] == OpenSentinel
        ensures exists k :: j < k <= n && ks[k] == CloseSentinel
      {
        assert j < n;
      }
    } else if n == 0 {
      assert !OpenedAt(ks, n);
    } else {
      var prefix := ks[..n];
      InSectionAfterMeans(prefix);
      OpenedAtPrefix(ks, n, n - 1);
      OpenedAtStep(ks);
    }
  }

  /** Whether a position is inside the section depends only on the lines up
      to it. */
  lemma OpenedAtPrefix(ks: seq<LineKind>, m: nat, i: nat)
    requires i < m <= |ks|
    ensures OpenedAt(ks[..m], i) <==> OpenedAt(ks, i)
  {
    var p := ks[..m];
    if OpenedAt(p, i) {
      var j :| 0 <= j <= i && p[j] == OpenSentinel &&
        forall k :: j < k <= i ==> p[k] != CloseSentinel;
      assert ks[j] == OpenSentinel;
    }
    if OpenedAt(ks, i) {
      var j :| 0 <= j <= i && ks[j] == OpenSentinel &&
        forall k :: j < k <= i ==> ks[k] != CloseSentinel;
      assert p[j] == OpenSentinel;
    }
  }

  lemma OpenedAtStep(ks: seq<LineKind>)
    requires |ks| >= 2
    requires ks[|ks| - 1] == OtherLine
    ensures OpenedAt(ks, |ks| - 1) <==> OpenedAt(ks, |ks| - 2)
  {
    var n := |ks| - 1;
    if OpenedAt(ks, n - 1) {
      var j :| 0 <= j <= n - 1 && ks[j] == OpenSentinel &&
        forall k :: j < k <= n - 1 ==> ks[k] != CloseSentinel;
      assert forall k :: j < k <= n ==> ks[k] != CloseSentinel;
    }
    if OpenedAt(ks, n) {
      var j :| 0 <= j <= n && ks[j] == OpenSentinel &&
        forall k :: j < k <= n ==> ks[k] != CloseSentinel;
      assert j <= n - 1;
    }
  }

  /** Loading yields one entry per line, in file order: line `i` parsed, and
      marked exactly when it lies from an open sentinel up to, but not
      including, the next close sentinel. Nothing else is marked. */
  lemma {:induction false} LoadEntriesAt(isIP: string -> bool, lines: seq<string>, i: nat)
    requires i < |lines|
    ensures var e := NewEntry(isIP, lines[i]);
      LoadEntries(isIP, lines)[i] ==
        if OpenedAt(Kinds(lines), i) then Mark(e, EntryMark) else e
    decreases |lines|
  {
    var n := |lines| - 1;
    KindsPrefix(lines, n);
    if i == n {
      InSectionAfterMeans(Kinds(lines));
    } else {
      LoadEntriesAt(isIP, lines[..n], i);
      OpenedAtPrefix(Kinds(lines), n, i);
      assert lines[..n][i] == lines[i];
    }
  }

  /** Every loaded entry is well formed. */
  lemma LoadEntriesWellFormed(isIP: string -> bool, lines: seq<string>)
    ensures forall k :: 0 <= k < |lines| ==> WellFormed(LoadEntries(isIP, lines)[k])
  {
    forall k | 0 <= k < |lines|
      ensures WellFormed(LoadEntries(isIP, lines)[k])
    {
      LoadEntriesAt(isIP, lines, k);
      NewEntryWellFormed(isIP, lines[k]);
    }
  }

  // ---------------------------------------------------------------------
  // Add: find the IP's entry, merge into it or insert a new one
  // ---------------------------------------------------------------------

  /** The entry getIPPosition looks for: an owned data line for the IP. */
  predicate OwnedFor(e: Entry, ip: string) {
    !IsComment(e) && EntryMark in e.marks && e.raw != "" && e.ip == ip
  }

  /** The first owned entry for `ip` at or after `i`, or -1. */
  function IPPositionFrom(entries: seq<Entry>, ip: string, i: nat): (p: int)
    requires i <= |entries|
    ensures p == -1 || i <= p < |entries|
    ensures p >= 0 ==> OwnedFor(entries[p], ip)
    ensures p >= 0 ==> forall k :: i <= k < p ==> !OwnedFor(entries[k], ip)
    ensures p == -1 ==> forall k :: i <= k < |entries| ==> !OwnedFor(entries[k], ip)
    decreases |entries| - i
  {
    if i == |entries| then -1
    else if OwnedFor(entries[i], ip) then i
    else IPPositionFrom(entries, ip, i + 1)
  }

  function IPPosition(entries: seq<Entry>, ip: string): (p: int)
    ensures -1 <= p < |entries|
    ensures p >= 0 ==> OwnedFor(entries[p], ip)
    ensures p >= 0 ==> forall k :: 0 <= k < p ==> !OwnedFor(entries[k], ip)
    ensures p == -1 ==> forall k :: 0 <= k < |entries| ==> !OwnedFor(entries[k], ip)
  {
    IPPositionFrom(entries, ip, 0)
  }

  /** The first entry whose raw line is exactly the close line Add writes. */
  function ClosePositionFrom(entries: seq<Entry>, i: nat): (p: int)
    requires i <= |entries|
    ensures p == -1 || i <= p < |entries|
    ensures p >= 0 ==> entries[p].raw == CloseLine
    ensures p >= 0 ==> forall k :: i <= k < p ==> entries[k].raw != CloseLine
    ensures p == -1 ==> forall k :: i <= k < |entries| ==> entries[k].raw != CloseLine
    decreases |entries| - i
  {
    if i == |entries| then -1
    else if entries[i].raw == CloseLine then i
    else ClosePositionFrom(entries, i + 1)
  }

  function ClosePosition(entries: seq<Entry>): (p: int)
    ensures -1 <= p < |entries|
    ensures p >= 0 ==> entries[p].raw == CloseLine
    ensures p >= 0 ==> forall k :: 0 <= k < p ==> entries[k].raw != CloseLine
    ensures p == -1 ==> forall k :: 0 <= k < |entries| ==> entries[k].raw != CloseLine
  {
    ClosePositionFrom(entries, 0)
  }

  /** buildRawLine: the IP, a space and the hosts joined by spaces. */
  function BuildRawLine(ip: string, hosts: seq<string>): string {
    ip + " " + Join(hosts, " ")
  }

  /** The entry Add creates for an IP with no owned entry. */
  function NewOwnedEntry(ip: string, hostsList: seq<string>): Entry {
    Mark(Entry(ip, hostsList, BuildRawLine(ip, hostsList), false, "", []), EntryMark)
  }

  const OpenEntry: Entry := Entry("", [], OpenLine, false, "", [])
  const CloseEntry: Entry := Entry("", [], CloseLine, false, "", [])

  /** The merge loop of Add: each listed host not yet present is appended. */
  function AppendMissing(hs: seq<string>, adds: seq<string>): (r: seq<string>)
    ensures forall h :: h in r <==> h in hs || h in adds
  {
    if adds == [] then hs
    else
      var r := AppendMissing(hs, adds[..|adds| - 1]);
      var a := adds[|adds| - 1];
      assert forall h :: h in adds <==> h in adds[..|adds| - 1] || h == a by {
        assert adds == adds[..|adds| - 1] + [a];
      }
      if a in r then r else r + [a]
  }

  /** The merge keeps the existing hosts in place and appends, in order of
      first mention, exactly the listed hosts that were not there. */
  lemma {:induction false} AppendMissingMeans(hs: seq<string>, adds: seq<string>)
    ensures AppendMissing(hs, adds) == hs + Without(Dedup(adds), hs)
    decreases |adds|
  {
    if adds == [] {
      assert Without([], hs) == [];
    } else {
      var init := adds[..|adds| - 1];
      var a := adds[|adds| - 1];
      AppendMissingMeans(hs, init);
      WithoutAppend(Dedup(init), a, hs);
    }
  }

  /** Merge the listed hosts into an entry and print it again. */
  function MergeHosts(e: Entry, hostsList: seq<string>): Entry {
    var merged := e.(hosts := AppendMissing(e.hosts, hostsList));
    merged.(raw := Export(merged))
  }

  /** Add up to normalising: merge into the IP's owned entry, or insert a new
      owned entry, creating the section when there is none. With a section but
      no line that is exactly the close line, InsertIntoSlice receives index -1
      and Go panics. */
  function Place(entries: seq<Entry>, hasSection: bool, ip: string,
                 hostsList: seq<string>): Result<seq<Entry>, Error>
  {
    var p := IPPosition(entries, ip);
    if p >= 0 then Ok(entries[p := MergeHosts(entries[p], hostsList)])
    else if !hasSection then
      Ok(entries + [OpenEntry, NewOwnedEntry(ip, hostsList), CloseEntry])
    else
      var c := ClosePosition(entries);
      if c == -1 then Err(Panic("slice bounds out of range [-1:]"))
      else Ok(entries[..c] + [NewOwnedEntry(ip, hostsList)] + entries[c..])
  }

  /** An IP with an owned entry: the entry gets the missing hosts appended
      after its own, and nothing else moves. */
  lemma PlaceMerges(entries: seq<Entry>, hasSection: bool, ip: string,
                    hostsList: seq<string>)
    requires IPPosition(entries, ip) >= 0
    ensures var p := IPPosition(entries, ip);
      var r := Place(entries, hasSection, ip, hostsList);
      r.Ok? && |r.value| == |entries| &&
      (forall k :: 0 <= k < |entries| && k != p ==> r.value[k] == entries[k]) &&
      r.value[p].hosts ==
        entries[p].hosts + Without(Dedup(hostsList), entries[p].hosts) &&
      r.value[p].ip == ip && EntryMark in r.value[p].marks
  {
    var p := IPPosition(entries, ip);
    AppendMissingMeans(entries[p].hosts, hostsList);
  }

  /** An IP without an owned entry and no section: the section is appended
      around the new entry. */
  lemma PlaceNewSection(entries: seq<Entry>, ip: string, hostsList: seq<string>)
    requires IPPosition(entries, ip) == -1
    ensures var r := Place(entries, false, ip, hostsList);
      r.Ok? && r.value[..|entries|] == entries && |r.value| == |entries| + 3 &&
      IsOpenCommentEntry(r.value[|entries|]) &&
      IsCloseCommentEntry(r.value[|entries| + 2]) &&
      var e := r.value[|entries| + 1];
      e.ip == ip && e.hosts == hostsList && EntryMark in e.marks
  {
    var r := entries + [OpenEntry, NewOwnedEntry(ip, hostsList), CloseEntry];
    assert Place(entries, false, ip, hostsList) == Ok(r);
    assert r[..|entries|] == entries;
    assert r[|entries|] == OpenEntry && r[|entries| + 2] == CloseEntry;
    assert IsOpenCommentEntry(OpenEntry) && IsCloseCommentEntry(CloseEntry) by {
      SentinelLines();
    }
  }

  /** An IP without an owned entry in a document with a section: the new entry
      goes just before the first line that is exactly the close line, and
      every other entry keeps its order; without such a line, Add panics. */
  lemma PlaceIntoSection(entries: seq<Entry>, ip: string, hostsList: seq<string>)
    requires IPPosition(entries, ip) == -1
    ensures var r := Place(entries, true, ip, hostsList);
      var c := ClosePosition(entries);
      (c == -1 <==> r.Err?) &&
      (c >= 0 ==>
        r.value[..c] == entries[..c] && r.value[c + 1..] == entries[c..] &&
        r.value[c] == NewOwnedEntry(ip, hostsList) &&
        r.value[c + 1].raw == CloseLine)
  {
    var c := ClosePosition(entries);
    if c >= 0 {
      var r := entries[..c] + [NewOwnedEntry(ip, hostsList)] + entries[c..];
      assert r[..c] == entries[..c];
      assert r[c + 1..] == entries[c..];
    }
  }

  // ---------------------------------------------------------------------
  // clean and hostsPerLine
  // ---------------------------------------------------------------------

  /** An entry after RemoveDuplicateHosts then SortHosts: each host once, in
      sorted order, and the line printed again. */
  function CleanEntry(e: Entry): (r: Entry)
    ensures StrictlySorted(r.hosts)
    ensures forall h :: h in r.hosts <==> h in e.hosts
    ensures r == e.(hosts := r.hosts, raw := Export(e.(hosts := r.hosts)))
  {
    var d := Dedup(e.hosts);
    var hs := SortStrings(d);
    assert forall h :: h in hs <==> h in d by {
      assert forall h :: h in hs <==> h in multiset(hs);
    }
    assert NoDuplicates(hs) by {
      forall i, j | 0 <= i < j < |hs| ensures hs[i] != hs[j] {
        var x := hs[i];
        assert multiset(hs)[x] == multiset(d)[x];
        MultisetOfDistinct(d, x);
        CountTwo(hs, i, j);
      }
    }
    SortedNoDuplicatesStrict(hs);
    var c := e.(hosts := hs);
    c.(raw := Export(c))
  }

  /** An element of a sequence without repeats occurs in it at most once. */
  lemma {:induction false} MultisetOfDistinct(s: seq<string>, x: string)
    requires NoDuplicates(s)
    ensures multiset(s)[x] <= 1
  {
    if s != [] {
      MultisetOfDistinct(s[1..], x);
      assert s == [s[0]] + s[1..];
      assert s[0] !in s[1..] by {
        forall k | 0 <= k < |s[1..]| ensures s[1..][k] != s[0] {
          assert s[1..][k] == s[k + 1];
        }
      }
    }
  }

  /** Two positions holding the same string make it occur twice. */
  lemma CountTwo(s: seq<string>, i: nat, j: nat)
    requires i < j < |s|
    ensures s[i] == s[j] ==> multiset(s)[s[i]] >= 2
  {
    if s[i] == s[j] {
      assert s == s[..i] + [s[i]] + s[i + 1..j] + [s[j]] + s[j + 1..];
    }
  }

  /** clean, before the per-line split: every entry normalised. */
  function CleanAll(entries: seq<Entry>): (r: seq<Entry>)
    ensures |r| == |entries|
    ensures forall k :: 0 <= k < |r| ==> r[k] == CleanEntry(entries[k])
  {
    seq(|entries|, k requires 0 <= k < |entries| => CleanEntry(entries[k]))
  }

  /** The entry holding hosts[i..end] of `e`, printed again. */
  function ChunkAt(e: Entry, i: nat, end: nat): Entry
    requires i <= end <= |e.hosts|
  {
    var part := e.(hosts := e.hosts[i..end]);
    part.(raw := Export(part))
  }

  /** The chunks hostsPerLine makes from `e`, from host `i` on; each holds
      `count` hosts, the last one the rest. */
  function ChunksFrom(e: Entry, count: nat, i: nat): seq<Entry>
    requires count > 0
    decreases |e.hosts| - i
  {
    if i >= |e.hosts| then []
    else
      var end := if |e.hosts| > i + count then i + count else |e.hosts|;
      [ChunkAt(e, i, end)] + ChunksFrom(e, count, i + count)
  }

  /** What hostsPerLine puts in place of one entry. */
  function SplitEntry(e: Entry, count: nat): seq<Entry>
    requires count > 0
  {
    if |e.hosts| <= count || EntryMark !in e.marks then [e]
    else ChunksFrom(e, count, 0)
  }

  function SplitAll(entries: seq<Entry>, count: nat): seq<Entry>
    requires count > 0
  {
    if entries == [] then []
    else SplitAll(entries[..|entries| - 1], count) + SplitEntry(entries[|entries| - 1], count)
  }

  /** hostsPerLine: nothing for count <= 0; otherwise every marked entry with
      more than `count` hosts is cut into consecutive lines. */
  function HostsPerLine(entries: seq<Entry>, count: int): seq<Entry> {
    if count <= 0 then entries else SplitAll(entries, count)
  }

  /** clean. */
  function Clean(entries: seq<Entry>, count: int): seq<Entry> {
    HostsPerLine(CleanAll(entries), count)
  }

  /** The hosts of a list of entries, one after the other. */
  function AllHosts(es: seq<Entry>): seq<string> {
    if es == [] then [] else es[0].hosts + AllHosts(es[1..])
  }

  /** The chunks of an entry hold, in order, exactly its hosts, at most `count`
      and at least one per line, all for the same IP, with the same comment
      and marks. */
  lemma ChunksCover(e: Entry, count: nat, i: nat)
    requires count > 0 && i <= |e.hosts|
    ensures AllHosts(ChunksFrom(e, count, i)) == e.hosts[i..]
    ensures forall k :: 0 <= k < |ChunksFrom(e, count, i)| ==>
      var c := ChunksFrom(e, count, i)[k];
      1 <= |c.hosts| <= count && c.ip == e.ip && c.comment == e.comment &&
      c.marks == e.marks && c.err == e.err
  {
    ChunksHosts(e, count, i);
    ChunksShape(e, count, i);
  }

  /** The first chunk from host `i` on holds hosts[i..end], printed again. */
  lemma ChunkAtHolds(e: Entry, i: nat, end: nat)
    requires i <= end <= |e.hosts|
    ensures var c := ChunkAt(e, i, end);
      c.hosts == e.hosts[i..end] && c.ip == e.ip && c.comment == e.comment &&
      c.marks == e.marks && c.err == e.err
  {
  }

  lemma AllHostsCons(c: Entry, rest: seq<Entry>)
    ensures AllHosts([c] + rest) == c.hosts + AllHosts(rest)
  {
    assert ([c] + rest)[1..] == rest;
  }

  lemma {:induction false} ChunksHosts(e: Entry, count: nat, i: nat)
    requires count > 0 && i <= |e.hosts|
    ensures AllHosts(ChunksFrom(e, count, i)) == e.hosts[i..]
    decreases |e.hosts| - i
  {
    if i < |e.hosts| {
      var end := if |e.hosts| > i + count then i + count else |e.hosts|;
      var rest := ChunksFrom(e, count, i + count);
      ChunkAtHolds(e, i, end);
      AllHostsCons(ChunkAt(e, i, end), rest);
      if i + count <= |e.hosts| {
        ChunksHosts(e, count, i + count);
        assert e.hosts[i..] == e.hosts[i..end] + e.hosts[i + count..];
      } else {
        assert rest == [];
        assert e.hosts[i..] == e.hosts[i..end] + [];
      }
    }
  }

  lemma {:induction false} ChunksShape(e: Entry, count: nat, i: nat)
    requires count > 0 && i <= |e.hosts|
    ensures forall k :: 0 <= k < |ChunksFrom(e, count, i)| ==>
      var c := ChunksFrom(e, count, i)[k];
      1 <= |c.hosts| <= count && c.ip == e.ip && c.comment == e.comment &&
      c.marks == e.marks && c.err == e.err
    decreases |e.hosts| - i
  {
    if i < |e.hosts| {
      var end := if |e.hosts| > i + count then i + count else |e.hosts|;
      var chunks := ChunksFrom(e, count, i);
      ChunkAtHolds(e, i, end);
      assert chunks[1..] == ChunksFrom(e, count, i + count);
      if i + count <= |e.hosts| {
        ChunksShape(e, count, i + count);
      }
    }
  }

  /** With count <= 0 (the value on every platform but Windows) clean does not
      change the number or order of entries. */
  lemma HostsPerLineIdentity(entries: seq<Entry>, count: int)
    requires count <= 0
    ensures Clean(entries, count) == CleanAll(entries)
  {
  }

  // ---------------------------------------------------------------------
  // removeHostsFromOtherIPs
  // ---------------------------------------------------------------------

  function StripEntry(e: Entry, keep: string, drop: seq<string>): Entry {
    if e.ip != keep then e.(hosts := Without(e.hosts, drop)) else e
  }

  /** removeHostsFromOtherIPs: every entry for another IP, in or out of the
      section, loses the listed hosts; raw lines are not printed again. After
      it no entry for another IP lists one of the hosts, entries for `keep`
      are untouched, and nothing else changes. */
  function RemoveHostsFromOtherIPs(entries: seq<Entry>, keep: string,
                                   drop: seq<string>): (r: seq<Entry>)
    ensures |r| == |entries|
    ensures forall k, h :: 0 <= k < |r| && h in drop && r[k].ip != keep ==>
      h !in r[k].hosts
    ensures forall k :: 0 <= k < |r| && entries[k].ip == keep ==> r[k] == entries[k]
    ensures forall k :: 0 <= k < |r| ==>
      r[k] == entries[k].(hosts := r[k].hosts) &&
      forall h :: h in r[k].hosts <==> h in entries[k].hosts && (entries[k].ip == keep || h !in drop)
  {
    seq(|entries|, k requires 0 <= k < |entries| => StripEntry(entries[k], keep, drop))
  }

  /** Add, from the parsed IP to just before flush. */
  function AddPrepared(entries: seq<Entry>, hasSection: bool, ip: string,
                       hostsList: seq<string>, count: int): Result<seq<Entry>, Error>
  {
    match Place(entries, hasSection, ip, hostsList)
    case Err(e) => Err(e)
    case Ok(placed) => Ok(RemoveHostsFromOtherIPs(Clean(placed, count), ip, hostsList))
  }

  // ---------------------------------------------------------------------
  // Remove
  // ---------------------------------------------------------------------

  /** The entries Remove looks into: owned, well parsed data lines for `ip`. */
  predicate RemoveTarget(e: Entry, ip: string) {
    !e.err && EntryMark in e.marks && !IsComment(e) && e.ip == ip
  }

  /** What the Remove loop puts in place of one entry: a target loses the
      listed hosts and is rebuilt from its text, or dropped when none remain;
      any other entry is kept as it is. */
  function RemoveFrom(isIP: string -> bool, e: Entry, ip: string,
                      hostsList: seq<string>): seq<Entry>
  {
    if !RemoveTarget(e, ip) then [e]
    else
      var kept := Without(e.hosts, hostsList);
      if |kept| > 0 then [NewEntry(isIP, BuildRawLine(ip, kept))] else []
  }

  function RemoveTargets(isIP: string -> bool, entries: seq<Entry>, ip: string,
                         hostsList: seq<string>): seq<Entry>
  {
    if entries == [] then []
    else
      RemoveTargets(isIP, entries[..|entries| - 1], ip, hostsList) +
        RemoveFrom(isIP, entries[|entries| - 1], ip, hostsList)
  }

  /** A marked entry other than a sentinel remains. */
  predicate HasMarkedEntries(entries: seq<Entry>) {
    exists k :: 0 <= k < |entries| && EntryMark in entries[k].marks && !IsSentinel(entries[k])
  }

  /** removeCloudUnoSection: drop the sentinels, keep the rest in order. */
  function RemoveSection(entries: seq<Entry>): (r: seq<Entry>)
    ensures forall e :: e in r <==> e in entries && !IsSentinel(e)
  {
    if entries == [] then []
    else
      var init := entries[..|entries| - 1];
      var last := entries[|entries| - 1];
      assert forall e :: e in entries <==> e in init || e == last by {
        assert entries == init + [last];
      }
      RemoveSection(init) + (if IsSentinel(last) then [] else [last])
  }

  /** Remove, from the parsed IP to just before flush. */
  function RemovePrepared(isIP: string -> bool, entries: seq<Entry>, ip: string,
                          hostsList: seq<string>, count: int): seq<Entry>
  {
    var r := RemoveTargets(isIP, entries, ip, hostsList);
    Clean(if HasMarkedEntries(r) then r else RemoveSection(r), count)
  }

  // ---------------------------------------------------------------------
  // flush
  // ---------------------------------------------------------------------

  /** The lines flush writes: every entry printed, in order. */
  function ExportAll(entries: seq<Entry>): (lines: seq<string>)
    ensures |lines| == |entries|
    ensures forall k :: 0 <= k < |lines| ==> lines[k] == Export(entries[k])
  {
    seq(|entries|, k requires 0 <= k < |entries| => Export(entries[k]))
  }

  // ---------------------------------------------------------------------
  // What the Go steps compute, one by one
  // ---------------------------------------------------------------------

  /** removeFromSlice (its source file is not part of this model): the slice
      without the item. */
  function RemoveFromSlice(item: string, s: seq<string>): (r: seq<string>)
    ensures forall x :: x in r <==> x in s && x != item
  {
    Without(s, [item])
  }

  /** Dropping the hosts one at a time, as removeHostsFromOtherIPs does, is
      dropping them all at once. */
  lemma StripStep(e: Entry, keep: string, drop: seq<string>, h: string)
    ensures var s := StripEntry(e, keep, drop);
      (if h in s.hosts && s.ip != keep then s.(hosts := RemoveFromSlice(h, s.hosts)) else s)
        == StripEntry(e, keep, drop + [h])
  {
    var s := StripEntry(e, keep, drop);
    if e.ip != keep {
      WithoutTwice(e.hosts, drop, h);
      if h !in s.hosts {
        WithoutAbsent(s.hosts, [h]);
      }
    }
  }

  lemma StripNothing(e: Entry, keep: string)
    ensures StripEntry(e, keep, []) == e
  {
    WithoutNothing(e.hosts);
  }

  /** A sequence with no elements is empty. */
  lemma NoElements(s: seq<string>)
    ensures (forall x :: x !in s) ==> s == []
  {
    if s != [] {
      assert s[0] in s;
    }
  }

  /** RemoveDuplicateHosts then SortHosts, whatever order the first leaves
      the hosts in, is CleanEntry, for a well-formed entry. */
  lemma CleanMatches(e: Entry, d: Entry)
    requires WellFormed(e)
    requires NoDuplicates(d.hosts)
    requires forall h :: h in d.hosts <==> h in e.hosts
    requires d == e.(hosts := d.hosts, raw := Export(e.(hosts := d.hosts)))
    ensures SortHosts(d) == CleanEntry(e)
  {
    var u := Dedup(e.hosts);
    NoDuplicatesMultiset(d.hosts, u);
    SortedUnique(SortStrings(d.hosts), SortStrings(u));
    if IsComment(e) || e.ip == "" {
      NoElements(d.hosts);
    }
    if !IsComment(e) {
      DataLineNotComment(e.(hosts := d.hosts));
    }
  }

  // ---------------------------------------------------------------------
  // Every step keeps the entries well formed
  // ---------------------------------------------------------------------

  predicate AllWellFormed(entries: seq<Entry>) {
    forall k :: 0 <= k < |entries| ==> WellFormed(entries[k])
  }

  /** Printing a well-formed entry with other hosts, the IP being a word when
      there are hosts, gives a well-formed entry. */
  lemma ReprintWellFormed(e: Entry, hs: seq<string>)
    requires WellFormed(e)
    requires IsComment(e) || e.ip == "" ==> hs == []
    ensures var c := e.(hosts := hs); WellFormed(c.(raw := Export(c)))
  {
    var c := e.(hosts := hs);
    if !IsComment(e) {
      DataLineNotComment(c);
    }
  }

  lemma CleanEntryWellFormed(e: Entry)
    requires WellFormed(e)
    ensures WellFormed(CleanEntry(e))
  {
    var hs := SortStrings(Dedup(e.hosts));
    if IsComment(e) || e.ip == "" {
      NoElements(hs);
    }
    ReprintWellFormed(e, hs);
  }

  lemma {:induction false} ChunksWellFormed(e: Entry, count: nat, i: nat)
    requires count > 0 && WellFormed(e) && e.hosts != []
    ensures AllWellFormed(ChunksFrom(e, count, i))
    decreases |e.hosts| - i
  {
    if i < |e.hosts| {
      var end := if |e.hosts| > i + count then i + count else |e.hosts|;
      ReprintWellFormed(e, e.hosts[i..end]);
      ChunksWellFormed(e, count, i + count);
    }
  }

  lemma {:induction false} SplitAllWellFormed(entries: seq<Entry>, count: nat)
    requires count > 0 && AllWellFormed(entries)
    ensures AllWellFormed(SplitAll(entries, count))
    decreases |entries|
  {
    if entries != [] {
      var last := entries[|entries| - 1];
      SplitAllWellFormed(entries[..|entries| - 1], count);
      if !(|last.hosts| <= count || EntryMark !in last.marks) {
        ChunksWellFormed(last, count, 0);
      }
    }
  }

  lemma CleanWellFormed(entries: seq<Entry>, count: int)
    requires AllWellFormed(entries)
    ensures AllWellFormed(Clean(entries, count))
  {
    forall k | 0 <= k < |entries| ensures WellFormed(CleanAll(entries)[k]) {
      CleanEntryWellFormed(entries[k]);
    }
    if count > 0 {
      SplitAllWellFormed(CleanAll(entries), count);
    }
  }

  /** The entry Add writes for a parsed IP is a data line. */
  lemma NewOwnedEntryWellFormed(isIP: string -> bool, ip: string, hostsList: seq<string>)
    requires IPLiteralsAreTokens(isIP) && isIP(ip)
    ensures WellFormed(NewOwnedEntry(ip, hostsList)) && !IsComment(NewOwnedEntry(ip, hostsList))
  {
    var raw := BuildRawLine(ip, hostsList);
    assert raw[0] == ip[0];
  }

  lemma PlaceWellFormed(isIP: string -> bool, entries: seq<Entry>, hasSection: bool,
                        ip: string, hostsList: seq<string>)
    requires IPLiteralsAreTokens(isIP) && isIP(ip) && AllWellFormed(entries)
    ensures Place(entries, hasSection, ip, hostsList).Ok? ==>
      AllWellFormed(Place(entries, hasSection, ip, hostsList).value)
  {
    var p := IPPosition(entries, ip);
    var r := Place(entries, hasSection, ip, hostsList);
    if p >= 0 {
      assert r == Ok(entries[p := MergeHosts(entries[p], hostsList)]);
      MergedWellFormed(entries, p, hostsList);
    } else {
      var added := NewOwnedEntry(ip, hostsList);
      NewOwnedEntryWellFormed(isIP, ip, hostsList);
      if !hasSection {
        assert r == Ok(entries + [OpenEntry, added, CloseEntry]);
        SectionAppendedWellFormed(entries, added);
      } else {
        var c := ClosePosition(entries);
        if c != -1 {
          assert r == Ok(entries[..c] + [added] + entries[c..]);
          InsertedWellFormed(entries[..c], added, entries[c..]);
        }
      }
    }
  }

  lemma SectionAppendedWellFormed(entries: seq<Entry>, added: Entry)
    requires AllWellFormed(entries) && WellFormed(added)
    ensures AllWellFormed(entries + [OpenEntry, added, CloseEntry])
  {
    SentinelEntries();
    ThreeWellFormed(OpenEntry, added, CloseEntry);
    AppendedWellFormed(entries, [OpenEntry, added, CloseEntry]);
  }

  lemma ThreeWellFormed(a: Entry, b: Entry, c: Entry)
    requires WellFormed(a) && WellFormed(b) && WellFormed(c)
    ensures AllWellFormed([a, b, c])
  {
  }

  lemma AppendedWellFormed(entries: seq<Entry>, more: seq<Entry>)
    requires AllWellFormed(entries) && AllWellFormed(more)
    ensures AllWellFormed(entries + more)
  {
    var r := entries + more;
    forall k | 0 <= k < |r| ensures WellFormed(r[k]) {
      if k >= |entries| {
        assert r[k] == more[k - |entries|];
      }
    }
  }

  lemma MergedWellFormed(entries: seq<Entry>, p: nat, hostsList: seq<string>)
    requires p < |entries| && AllWellFormed(entries)
    requires !IsComment(entries[p]) && entries[p].ip != ""
    ensures AllWellFormed(entries[p := MergeHosts(entries[p], hostsList)])
  {
    var merged := MergeHosts(entries[p], hostsList);
    ReprintWellFormed(entries[p], AppendMissing(entries[p].hosts, hostsList));
    InsertedWellFormed(entries[..p], merged, entries[p + 1..]);
    assert entries[p := merged] == entries[..p] + [merged] + entries[p + 1..];
  }

  /** Putting a well-formed entry between well-formed entries. */
  lemma InsertedWellFormed(front: seq<Entry>, e: Entry, back: seq<Entry>)
    requires AllWellFormed(front) && WellFormed(e) && AllWellFormed(back)
    ensures AllWellFormed(front + [e] + back)
  {
    var r := front + [e] + back;
    forall k | 0 <= k < |r| ensures WellFormed(r[k]) {
      if k < |front| {
        assert r[k] == front[k];
      } else if k > |front| {
        assert r[k] == back[k - |front| - 1];
      }
    }
  }

  lemma StripWellFormed(entries: seq<Entry>, keep: string, drop: seq<string>)
    requires AllWellFormed(entries)
    ensures AllWellFormed(RemoveHostsFromOtherIPs(entries, keep, drop))
  {
  }

  lemma {:induction false} RemoveTargetsWellFormed(isIP: string -> bool, entries: seq<Entry>,
                                                   ip: string, hostsList: seq<string>)
    requires AllWellFormed(entries)
    ensures AllWellFormed(RemoveTargets(isIP, entries, ip, hostsList))
    decreases |entries|
  {
    if entries != [] {
      RemoveTargetsWellFormed(isIP, entries[..|entries| - 1], ip, hostsList);
      var kept := Without(entries[|entries| - 1].hosts, hostsList);
      NewEntryWellFormed(isIP, BuildRawLine(ip, kept));
    }
  }

  lemma RemoveSectionWellFormed(entries: seq<Entry>)
    requires AllWellFormed(entries)
    ensures AllWellFormed(RemoveSection(entries))
  {
    var s := RemoveSection(entries);
    assert forall k :: 0 <= k < |s| ==> s[k] in entries;
  }

  lemma RemovePreparedWellFormed(isIP: string -> bool, entries: seq<Entry>, ip: string,
                                 hostsList: seq<string>, count: int)
    requires AllWellFormed(entries)
    ensures AllWellFormed(RemovePrepared(isIP, entries, ip, hostsList, count))
  {
    var r := RemoveTargets(isIP, entries, ip, hostsList);
    RemoveTargetsWellFormed(isIP, entries, ip, hostsList);
    RemoveSectionWellFormed(r);
    CleanWellFormed(if HasMarkedEntries(r) then r else RemoveSection(r), count);
  }

  // ---------------------------------------------------------------------
  // Properties of clean, Remove and Add as whole steps
  // ---------------------------------------------------------------------

  lemma {:induction false} AllHostsAppend(a: seq<Entry>, b: seq<Entry>)
    ensures AllHosts(a + b) == AllHosts(a) + AllHosts(b)
    decreases |a|
  {
    if a == [] {
      assert a + b == b;
    } else {
      AllHostsAppend(a[1..], b);
      assert (a + b)[1..] == a[1..] + b;
    }
  }

  /** hostsPerLine loses no host and adds none: the hosts of the new lines,
      one after the other, are those of the old lines. */
  lemma {:induction false} SplitAllHosts(entries: seq<Entry>, count: nat)
    requires count > 0
    ensures AllHosts(SplitAll(entries, count)) == AllHosts(entries)
    decreases |entries|
  {
    if entries != [] {
      var init := entries[..|entries| - 1];
      var last := entries[|entries| - 1];
      SplitAllHosts(init, count);
      AllHostsAppend(SplitAll(init, count), SplitEntry(last, count));
      AllHostsAppend(init, [last]);
      assert entries == init + [last];
      if !(|last.hosts| <= count || EntryMark !in last.marks) {
        ChunksCover(last, count, 0);
      }
    }
  }

  /** After hostsPerLine no owned line holds more than `count` hosts, and
      every line it wrote is for an IP that had a line before. */
  lemma {:induction false} SplitAllBounded(entries: seq<Entry>, count: nat)
    requires count > 0
    ensures forall k :: 0 <= k < |SplitAll(entries, count)| ==>
      var e := SplitAll(entries, count)[k];
      (EntryMark in e.marks ==> |e.hosts| <= count) &&
      exists j :: 0 <= j < |entries| && entries[j].ip == e.ip
    decreases |entries|
  {
    if entries != [] {
      var init := entries[..|entries| - 1];
      var last := entries[|entries| - 1];
      SplitAllBounded(init, count);
      var split := SplitAll(entries, count);
      var head := SplitAll(init, count);
      forall k | 0 <= k < |split|
        ensures EntryMark in split[k].marks ==> |split[k].hosts| <= count
        ensures exists j :: 0 <= j < |entries| && entries[j].ip == split[k].ip
      {
        if k < |head| {
          assert split[k] == head[k];
          var j :| 0 <= j < |init| && init[j].ip == head[k].ip;
          assert entries[j] == init[j];
        } else {
          assert split[k] == SplitEntry(last, count)[k - |head|];
          if !(|last.hosts| <= count || EntryMark !in last.marks) {
            ChunksCover(last, count, 0);
          }
          assert entries[|entries| - 1] == last;
        }
      }
    }
  }

  /** Remove on one entry: anything but an owned, well parsed data line for
      the IP passes through unchanged; an owned line keeping none of its
      hosts disappears; one keeping some is parsed again from its rebuilt
      text, which gives the IP and exactly the kept hosts, in order, and no
      marks. */
  lemma RemoveFromMeans(isIP: string -> bool, e: Entry, ip: string, hostsList: seq<string>)
    requires IPLiteralsAreTokens(isIP) && isIP(ip)
    ensures !RemoveTarget(e, ip) ==> RemoveFrom(isIP, e, ip, hostsList) == [e]
    ensures RemoveTarget(e, ip) && Without(e.hosts, hostsList) == [] ==>
      RemoveFrom(isIP, e, ip, hostsList) == []
    ensures var kept := Without(e.hosts, hostsList);
      RemoveTarget(e, ip) && kept != [] && AllTokens(kept) &&
      (forall k :: 0 <= k < |kept| ==> CommentChar !in kept[k]) ==>
        RemoveFrom(isIP, e, ip, hostsList) ==
          [Entry(ip, kept, BuildRawLine(ip, kept), false, "", [])]
  {
    var kept := Without(e.hosts, hostsList);
    if RemoveTarget(e, ip) && kept != [] && AllTokens(kept) &&
       (forall k :: 0 <= k < |kept| ==> CommentChar !in kept[k]) {
      var line := Entry(ip, kept, "", false, "", []);
      var body := BuildRawLine(ip, kept);
      assert body[0] == ip[0];
      DataLineWords(line);
      JoinAvoids(kept, " ", CommentChar);
      PrintedLineParses(isIP, body, body, "", [ip] + kept);
      assert ([ip] + kept)[1..] == kept;
    }
  }

  /** Cleaning well-formed entries with no sentinels among them gives no
      sentinel: cleaned comment lines keep their text and every other line
      is printed as a data line. */
  lemma CleanSentinelFree(entries: seq<Entry>, count: int)
    requires AllWellFormed(entries)
    requires forall k :: 0 <= k < |entries| ==> !IsSentinel(entries[k])
    ensures forall k :: 0 <= k < |Clean(entries, count)| ==> !IsSentinel(Clean(entries, count)[k])
  {
    var cleaned := CleanAll(entries);
    forall k | 0 <= k < |cleaned| ensures !IsSentinel(cleaned[k]) && WellFormed(cleaned[k]) {
      CleanEntryWellFormed(entries[k]);
      if !IsComment(entries[k]) {
        DataLineNotComment(entries[k].(hosts := cleaned[k].hosts));
      }
    }
    if count > 0 {
      SplitAllSentinelFree(cleaned, count);
    }
  }

  lemma {:induction false} SplitAllSentinelFree(entries: seq<Entry>, count: nat)
    requires count > 0 && AllWellFormed(entries)
    requires forall k :: 0 <= k < |entries| ==> !IsSentinel(entries[k])
    ensures forall k :: 0 <= k < |SplitAll(entries, count)| ==> !IsSentinel(SplitAll(entries, count)[k])
    decreases |entries|
  {
    if entries != [] {
      var init := entries[..|entries| - 1];
      var last := entries[|entries| - 1];
      SplitAllSentinelFree(init, count);
      if !(|last.hosts| <= count || EntryMark !in last.marks) {
        ChunksWellFormed(last, count, 0);
        ChunksAreDataLines(last, count, 0);
      }
    }
  }

  /** The lines hostsPerLine cuts a well-formed entry with hosts into are
      data lines. */
  lemma {:induction false} ChunksAreDataLines(e: Entry, count: nat, i: nat)
    requires count > 0 && WellFormed(e) && e.hosts != []
    ensures forall k :: 0 <= k < |ChunksFrom(e, count, i)| ==> !IsComment(ChunksFrom(e, count, i)[k])
    decreases |e.hosts| - i
  {
    if i < |e.hosts| {
      var end := if |e.hosts| > i + count then i + count else |e.hosts|;
      DataLineNotComment(e.(hosts := e.hosts[i..end]));
      ChunksAreDataLines(e, count, i + count);
      assert ChunksFrom(e, count, i)[1..] == ChunksFrom(e, count, i + count);
    }
  }

  /** When no owned entry but the sentinels survives the removal, Remove
      writes no sentinel line at all. */
  lemma RemoveDropsSection(isIP: string -> bool, entries: seq<Entry>, ip: string,
                           hostsList: seq<string>, count: int)
    requires AllWellFormed(entries)
    requires !HasMarkedEntries(RemoveTargets(isIP, entries, ip, hostsList))
    ensures var r := RemovePrepared(isIP, entries, ip, hostsList, count);
      forall k :: 0 <= k < |r| ==> !IsSentinel(r[k])
  {
    var r := RemoveTargets(isIP, entries, ip, hostsList);
    RemoveTargetsWellFormed(isIP, entries, ip, hostsList);
    RemoveSectionWellFormed(r);
    var s := RemoveSection(r);
    assert forall k :: 0 <= k < |s| ==> s[k] in s;
    CleanSentinelFree(s, count);
  }
}
