/** Three places where the hosts manager (pkg/hosts/manager.go) does not do
    what it evidently means to. Each is shown on the code as written, which
    modules HostsDocument and HostsManager follow, next to a corrected
    definition with the intended property proved about it. */
module HostsFindings {
  import opened Wrappers
  import opened GoStrings
  import opened Errors
  import opened HostsEntries
  import opened HostsDocument

  // ---------------------------------------------------------------------
  // 1. flush keeps the entries it has just written
  // ---------------------------------------------------------------------

  /** The entries Manager.Flush leaves in memory: load appends the entries
      it reads back to the ones that were written. */
  function FlushedAsWritten(isIP: string -> bool, entries: seq<Entry>): (r: seq<Entry>)
    ensures |r| == 2 * |entries|
    ensures r[..|entries|] == entries
  {
    entries + LoadEntries(isIP, ExportAll(entries))
  }

  /** flush as evidently intended: afterwards the manager holds the file it
      has just written, read back. */
  function FlushedReplacing(isIP: string -> bool, entries: seq<Entry>): (r: seq<Entry>)
    ensures |r| == |entries|
  {
    LoadEntries(isIP, ExportAll(entries))
  }

  /** As written, a second flush with nothing changed in between writes every
      line twice. */
  lemma FlushTwiceRepeatsFile(isIP: string -> bool, entries: seq<Entry>)
    ensures var once := ExportAll(entries);
      var twice := ExportAll(FlushedAsWritten(isIP, entries));
      |twice| == 2 * |once| && twice[..|once|] == once
    ensures entries != [] ==> ExportAll(FlushedAsWritten(isIP, entries)) != ExportAll(entries)
  {
    var once := ExportAll(entries);
    var twice := ExportAll(FlushedAsWritten(isIP, entries));
    assert twice[..|once|] == once;
  }

  /** Cleaning and stripping keep the text of a comment line. */
  lemma PreparedKeepsComment(placed: seq<Entry>, ip: string, hostsList: seq<string>, k: nat)
    requires k < |placed| && IsComment(placed[k])
    ensures RemoveHostsFromOtherIPs(Clean(placed, -1), ip, hostsList)[k].raw == placed[k].raw
  {
    var c := Clean(placed, -1);
    assert c[k] == CleanEntry(placed[k]);
  }

  /** A sentinel is written as its own text and read back as it is. */
  lemma FlushRepeatsSentinel(isIP: string -> bool, entries: seq<Entry>, k: nat)
    requires k < |entries| && IsOpenCommentEntry(entries[k])
    ensures var held := FlushedAsWritten(isIP, entries);
      IsOpenCommentEntry(held[k]) && IsOpenCommentEntry(held[|entries| + k])
  {
    var file := ExportAll(entries);
    LoadEntriesAt(isIP, file, k);
  }

  /** Add of an IP on a file without a section (the empty file, say) writes
      the three lines of a new section, after which the manager holds the
      entries twice over, with two open sentinels among them: the next Add
      or Remove writes the section twice. */
  lemma AddNewSectionHeldTwice(isIP: string -> bool, entries: seq<Entry>, ip: string, hostsList: seq<string>)
    requires IPPosition(entries, ip) == -1
    ensures var r := AddPrepared(entries, false, ip, hostsList, -1);
      r.Ok? && |r.value| == |entries| + 3 &&
      var held := FlushedAsWritten(isIP, r.value);
      |held| == 2 * |r.value| &&
      IsOpenCommentEntry(held[|entries|]) && IsOpenCommentEntry(held[|r.value| + |entries|])
  {
    var prepared := AddNewSection(entries, ip, hostsList);
    FlushRepeatsSentinel(isIP, prepared, |entries|);
  }

  /** What Add prepares then: the entries and a new section, cleaned. */
  lemma AddNewSection(entries: seq<Entry>, ip: string, hostsList: seq<string>) returns (prepared: seq<Entry>)
    requires IPPosition(entries, ip) == -1
    ensures AddPrepared(entries, false, ip, hostsList, -1) == Ok(prepared)
    ensures |prepared| == |entries| + 3 && IsOpenCommentEntry(prepared[|entries|])
  {
    PlaceNewSection(entries, ip, hostsList);
    var placed := Place(entries, false, ip, hostsList).value;
    PreparedKeepsComment(placed, ip, hostsList, |entries|);
    prepared := RemoveHostsFromOtherIPs(Clean(placed, -1), ip, hostsList);
  }

  /** An entry whose printed line parses back to the same words. */
  predicate Printable(e: Entry) {
    WellFormed(e) &&
    (IsComment(e) || e.ip == "" ||
     (IsToken(e.ip) && CommentChar !in e.ip && AllTokens(e.hosts) &&
      (forall i :: 0 <= i < |e.hosts| ==> CommentChar !in e.hosts[i]) &&
      CommentChar !in e.comment))
  }

  /** Printing, parsing and printing again gives the first printed line. */
  lemma ReprintStable(isIP: string -> bool, e: Entry)
    requires Printable(e)
    ensures Export(NewEntry(isIP, Export(e))) == Export(e)
  {
    if IsComment(e) {
      NewEntryOfCommentLine(isIP, e.raw);
    } else if e.ip == "" {
      assert Export(e) == " ";
      BlankLine(isIP, " ");
    } else {
      ExportParses(isIP, e);
      DataLineNotComment(e);
    }
  }

  /** Every line read from a file gives a printable entry. */
  lemma ParsedPrintable(isIP: string -> bool, raw: string)
    ensures Printable(NewEntry(isIP, raw))
  {
    NewEntryWellFormed(isIP, raw);
    if !IsCommentLine(raw) {
      NewEntryOfDataLine(isIP, raw);
      var data := UpTo(raw, CommentChar);
      var words := Fields(data);
      assert CommentChar !in data;
      FieldsAvoid(data, CommentChar);
      if words != [] {
        assert AllTokens(words[1..]) by {
          assert forall i :: 0 <= i < |words[1..]| ==> words[1..][i] == words[i + 1];
        }
        assert forall i :: 0 <= i < |words[1..]| ==> CommentChar !in words[1..][i] by {
          assert forall i :: 0 <= i < |words[1..]| ==> words[1..][i] == words[i + 1];
        }
      }
      var i := Index(raw, CommentChar);
      if i >= 0 {
        var rest := raw[i + 1..];
        assert CommentChar !in UpTo(rest, CommentChar);
      }
    }
  }

  lemma LoadedPrintable(isIP: string -> bool, lines: seq<string>)
    ensures forall k :: 0 <= k < |lines| ==> Printable(LoadEntries(isIP, lines)[k])
  {
    forall k | 0 <= k < |lines| ensures Printable(LoadEntries(isIP, lines)[k]) {
      LoadEntriesAt(isIP, lines, k);
      ParsedPrintable(isIP, lines[k]);
    }
  }

  /** With the corrected flush, flushing again with nothing changed writes
      the same file, and the entries read back are printable again, so this
      holds at every later flush as well. */
  lemma ReplacingFlushIsStable(isIP: string -> bool, entries: seq<Entry>)
    requires forall k :: 0 <= k < |entries| ==> Printable(entries[k])
    ensures ExportAll(FlushedReplacing(isIP, entries)) == ExportAll(entries)
    ensures forall k :: 0 <= k < |entries| ==> Printable(FlushedReplacing(isIP, entries)[k])
  {
    var file := ExportAll(entries);
    var back := FlushedReplacing(isIP, entries);
    forall k | 0 <= k < |entries| ensures Export(back[k]) == file[k] {
      LoadEntriesAt(isIP, file, k);
      ReprintStable(isIP, entries[k]);
    }
    LoadedPrintable(isIP, file);
  }

  // ---------------------------------------------------------------------
  // 2. Remove rebuilds the lines it keeps without the ownership mark
  // ---------------------------------------------------------------------

  /** An owned entry other than a sentinel that Remove does not rebuild. */
  predicate UntouchedOwned(e: Entry, ip: string) {
    EntryMark in e.marks && !IsSentinel(e) && !RemoveTarget(e, ip)
  }

  lemma RemoveFromUntouched(isIP: string -> bool, e: Entry, ip: string, hostsList: seq<string>)
    ensures HasMarkedEntries(RemoveFrom(isIP, e, ip, hostsList)) <==> UntouchedOwned(e, ip)
  {
    var one := RemoveFrom(isIP, e, ip, hostsList);
    if HasMarkedEntries(one) {
      var j :| 0 <= j < |one| && EntryMark in one[j].marks && !IsSentinel(one[j]);
      assert !RemoveTarget(e, ip);
    }
    if UntouchedOwned(e, ip) {
      assert one[0] == e;
    }
  }

  lemma UntouchedSnoc(init: seq<Entry>, last: Entry, ip: string)
    ensures (exists k :: 0 <= k < |init + [last]| && UntouchedOwned((init + [last])[k], ip)) <==>
      (exists k :: 0 <= k < |init| && UntouchedOwned(init[k], ip)) || UntouchedOwned(last, ip)
  {
    var entries := init + [last];
    if exists k :: 0 <= k < |entries| && UntouchedOwned(entries[k], ip) {
      var k :| 0 <= k < |entries| && UntouchedOwned(entries[k], ip);
      if k < |init| {
        assert init[k] == entries[k];
      }
    }
    if exists k :: 0 <= k < |init| && UntouchedOwned(init[k], ip) {
      var k :| 0 <= k < |init| && UntouchedOwned(init[k], ip);
      assert entries[k] == init[k];
    }
    if UntouchedOwned(last, ip) {
      assert entries[|init|] == last;
    }
  }

  /** As written, the section survives Remove exactly when some owned line
      is not a target: owned lines that keep hosts are rebuilt unmarked and
      do not count. */
  lemma {:induction false} RemoveAsWrittenKeepsSection(isIP: string -> bool, entries: seq<Entry>,
                                                       ip: string, hostsList: seq<string>)
    ensures HasMarkedEntries(RemoveTargets(isIP, entries, ip, hostsList)) <==>
      exists k :: 0 <= k < |entries| && UntouchedOwned(entries[k], ip)
    decreases |entries|
  {
    if entries != [] {
      var init := entries[..|entries| - 1];
      var last := entries[|entries| - 1];
      RemoveAsWrittenKeepsSection(isIP, init, ip, hostsList);
      HasMarkedEntriesAppend(RemoveTargets(isIP, init, ip, hostsList),
                             RemoveFrom(isIP, last, ip, hostsList));
      RemoveFromUntouched(isIP, last, ip, hostsList);
      assert entries == init + [last];
      UntouchedSnoc(init, last, ip);
    }
  }

  /** Remove on one entry as evidently intended: a rebuilt line stays owned. */
  function RemoveFromKeepingMark(isIP: string -> bool, e: Entry, ip: string,
                                 hostsList: seq<string>): seq<Entry>
  {
    if !RemoveTarget(e, ip) then [e]
    else
      var kept := Without(e.hosts, hostsList);
      if |kept| > 0 then [Mark(NewEntry(isIP, BuildRawLine(ip, kept)), EntryMark)] else []
  }

  function RemoveTargetsKeepingMarks(isIP: string -> bool, entries: seq<Entry>, ip: string,
                                     hostsList: seq<string>): seq<Entry>
  {
    if entries == [] then []
    else
      RemoveTargetsKeepingMarks(isIP, entries[..|entries| - 1], ip, hostsList) +
        RemoveFromKeepingMark(isIP, entries[|entries| - 1], ip, hostsList)
  }

  /** An owned entry other than a sentinel that still holds a host after the
      removal: one the removal does not touch, or one keeping some hosts. */
  predicate KeepsOwnedHost(e: Entry, ip: string, hostsList: seq<string>) {
    EntryMark in e.marks && !IsSentinel(e) &&
    (!RemoveTarget(e, ip) || Without(e.hosts, hostsList) != [])
  }

  lemma HasMarkedEntriesAppend(a: seq<Entry>, b: seq<Entry>)
    ensures HasMarkedEntries(a + b) <==> HasMarkedEntries(a) || HasMarkedEntries(b)
  {
    var ab := a + b;
    if HasMarkedEntries(ab) {
      var k :| 0 <= k < |ab| && EntryMark in ab[k].marks && !IsSentinel(ab[k]);
      if k >= |a| {
        assert b[k - |a|] == ab[k];
      }
    }
    if HasMarkedEntries(a) {
      var k :| 0 <= k < |a| && EntryMark in a[k].marks && !IsSentinel(a[k]);
      assert ab[k] == a[k];
    }
    if HasMarkedEntries(b) {
      var k :| 0 <= k < |b| && EntryMark in b[k].marks && !IsSentinel(b[k]);
      assert ab[|a| + k] == b[k];
    }
  }

  lemma RemoveFromKeepsOwned(isIP: string -> bool, e: Entry, ip: string, hostsList: seq<string>)
    requires IPLiteralsAreTokens(isIP) && isIP(ip)
    ensures HasMarkedEntries(RemoveFromKeepingMark(isIP, e, ip, hostsList)) <==>
      KeepsOwnedHost(e, ip, hostsList)
  {
    var one := RemoveFromKeepingMark(isIP, e, ip, hostsList);
    var kept := Without(e.hosts, hostsList);
    if RemoveTarget(e, ip) && kept != [] {
      var raw := BuildRawLine(ip, kept);
      assert raw[0] == ip[0];
      assert !IsCommentLine(raw);
      assert one[0].raw == raw;
      assert EntryMark in one[0].marks && !IsSentinel(one[0]);
    } else if !RemoveTarget(e, ip) {
      if KeepsOwnedHost(e, ip, hostsList) {
        assert one[0] == e;
      }
    }
  }

  lemma KeepsOwnedSnoc(init: seq<Entry>, last: Entry, ip: string, hostsList: seq<string>)
    ensures (exists k :: 0 <= k < |init + [last]| &&
               KeepsOwnedHost((init + [last])[k], ip, hostsList)) <==>
      (exists k :: 0 <= k < |init| && KeepsOwnedHost(init[k], ip, hostsList)) ||
      KeepsOwnedHost(last, ip, hostsList)
  {
    var entries := init + [last];
    if exists k :: 0 <= k < |entries| && KeepsOwnedHost(entries[k], ip, hostsList) {
      var k :| 0 <= k < |entries| && KeepsOwnedHost(entries[k], ip, hostsList);
      if k < |init| {
        assert init[k] == entries[k];
      }
    }
    if exists k :: 0 <= k < |init| && KeepsOwnedHost(init[k], ip, hostsList) {
      var k :| 0 <= k < |init| && KeepsOwnedHost(init[k], ip, hostsList);
      assert entries[k] == init[k];
    }
    if KeepsOwnedHost(last, ip, hostsList) {
      assert entries[|init|] == last;
    }
  }

  /** With the corrected Remove the section is removed exactly when no owned
      line keeps a host. */
  lemma {:induction false} CorrectedRemoveKeepsSection(isIP: string -> bool, entries: seq<Entry>,
                                                       ip: string, hostsList: seq<string>)
    requires IPLiteralsAreTokens(isIP) && isIP(ip)
    ensures HasMarkedEntries(RemoveTargetsKeepingMarks(isIP, entries, ip, hostsList)) <==>
      exists k :: 0 <= k < |entries| && KeepsOwnedHost(entries[k], ip, hostsList)
    decreases |entries|
  {
    if entries != [] {
      var init := entries[..|entries| - 1];
      var last := entries[|entries| - 1];
      CorrectedRemoveKeepsSection(isIP, init, ip, hostsList);
      HasMarkedEntriesAppend(RemoveTargetsKeepingMarks(isIP, init, ip, hostsList),
                             RemoveFromKeepingMark(isIP, last, ip, hostsList));
      RemoveFromKeepsOwned(isIP, last, ip, hostsList);
      assert entries == init + [last];
      KeepsOwnedSnoc(init, last, ip, hostsList);
    }
  }

  /** A section holding one owned line with two hosts, as Add writes it. */
  function TwoHostSection(ip: string): seq<Entry> {
    [OpenEntry, NewOwnedEntry(ip, ["a", "b"]), CloseEntry]
  }

  lemma TwoHostLine(isIP: string -> bool, ip: string)
    requires IPLiteralsAreTokens(isIP) && isIP(ip)
    ensures RemoveTarget(NewOwnedEntry(ip, ["a", "b"]), ip)
    ensures Without(["a", "b"], ["a"]) == ["b"]
  {
    var raw := BuildRawLine(ip, ["a", "b"]);
    assert raw[0] == ip[0];
  }

  /** Remove(ip, "a") on that section: as written the line `ip b` is kept
      but unowned and the section is dropped; corrected, the section stays. */
  lemma RemoveOneOfTwoHosts(isIP: string -> bool, ip: string)
    requires IPLiteralsAreTokens(isIP) && isIP(ip)
    ensures var doc := TwoHostSection(ip);
      RemoveFrom(isIP, doc[1], ip, ["a"]) ==
        [Entry(ip, ["b"], BuildRawLine(ip, ["b"]), false, "", [])] &&
      !HasMarkedEntries(RemoveTargets(isIP, doc, ip, ["a"])) &&
      HasMarkedEntries(RemoveTargetsKeepingMarks(isIP, doc, ip, ["a"]))
  {
    TwoHostRemoveDropsSection(isIP, ip);
    TwoHostCorrectedKeepsSection(isIP, ip);
  }

  lemma TwoHostRemoveDropsSection(isIP: string -> bool, ip: string)
    requires IPLiteralsAreTokens(isIP) && isIP(ip)
    ensures var doc := TwoHostSection(ip);
      RemoveFrom(isIP, doc[1], ip, ["a"]) ==
        [Entry(ip, ["b"], BuildRawLine(ip, ["b"]), false, "", [])] &&
      !HasMarkedEntries(RemoveTargets(isIP, doc, ip, ["a"]))
  {
    var line := NewOwnedEntry(ip, ["a", "b"]);
    TwoHostRemovedLine(isIP, ip);
    assert TwoHostSection(ip)[1] == line;
    TwoHostLine(isIP, ip);
    SentinelEntries();
    NoneUntouched(OpenEntry, line, CloseEntry, ip);
    RemoveAsWrittenKeepsSection(isIP, TwoHostSection(ip), ip, ["a"]);
  }

  /** The owned line loses "a" and is rebuilt, unmarked, from `ip b`. */
  lemma TwoHostRemovedLine(isIP: string -> bool, ip: string)
    requires IPLiteralsAreTokens(isIP) && isIP(ip)
    ensures RemoveFrom(isIP, NewOwnedEntry(ip, ["a", "b"]), ip, ["a"]) ==
      [Entry(ip, ["b"], BuildRawLine(ip, ["b"]), false, "", [])]
  {
    var line := NewOwnedEntry(ip, ["a", "b"]);
    TwoHostLine(isIP, ip);
    assert line.hosts == ["a", "b"];
    var kept := Without(line.hosts, ["a"]);
    assert kept == ["b"];
    assert AllTokens(kept) && forall k :: 0 <= k < |kept| ==> CommentChar !in kept[k];
    RemoveFromMeans(isIP, line, ip, ["a"]);
  }

  lemma NoneUntouched(a: Entry, b: Entry, c: Entry, ip: string)
    requires !UntouchedOwned(a, ip) && !UntouchedOwned(b, ip) && !UntouchedOwned(c, ip)
    ensures forall k :: 0 <= k < |[a, b, c]| ==> !UntouchedOwned([a, b, c][k], ip)
  {
  }

  lemma TwoHostCorrectedKeepsSection(isIP: string -> bool, ip: string)
    requires IPLiteralsAreTokens(isIP) && isIP(ip)
    ensures var doc := TwoHostSection(ip);
      HasMarkedEntries(RemoveTargetsKeepingMarks(isIP, doc, ip, ["a"]))
  {
    var line := NewOwnedEntry(ip, ["a", "b"]);
    TwoHostLineKept(isIP, ip);
    MiddleKeeps(OpenEntry, line, CloseEntry, ip, ["a"]);
    CorrectedRemoveKeepsSection(isIP, TwoHostSection(ip), ip, ["a"]);
  }

  lemma TwoHostLineKept(isIP: string -> bool, ip: string)
    requires IPLiteralsAreTokens(isIP) && isIP(ip)
    ensures KeepsOwnedHost(NewOwnedEntry(ip, ["a", "b"]), ip, ["a"])
  {
    TwoHostLine(isIP, ip);
  }

  lemma MiddleKeeps(a: Entry, b: Entry, c: Entry, ip: string, hostsList: seq<string>)
    requires KeepsOwnedHost(b, ip, hostsList)
    ensures exists k :: 0 <= k < |[a, b, c]| && KeepsOwnedHost([a, b, c][k], ip, hostsList)
  {
    assert [a, b, c][1] == b;
  }

  // ---------------------------------------------------------------------
  // 3. the close sentinel is found by its exact text
  // ---------------------------------------------------------------------

  /** `#` directly followed by the comment text is a sentinel line too. */
  lemma BareSentinelLine(text: string)
    requires text != [] && !IsSpace(text[0]) && !IsSpace(text[|text| - 1])
    ensures IsCommentLine([CommentChar] + text)
    ensures NormaliseComment([CommentChar] + text) == text
  {
    var line := [CommentChar] + text;
    assert line[1..] == text;
    TrimLeftOfNonSpace(text);
  }

  /** The sentinels written without the space after `#`. */
  function LooseSentinelFile(): seq<string> {
    [[CommentChar] + OpenComment, [CommentChar] + CloseComment]
  }

  lemma LooseOpenLine()
    ensures IsOpenLine(LooseSentinelFile()[0])
  {
    BareSentinelLine(OpenComment);
  }

  lemma LooseCloseLine()
    ensures IsCloseLine(LooseSentinelFile()[1])
  {
    BareSentinelLine(CloseComment);
  }

  lemma LooseLinesDiffer()
    ensures forall k :: 0 <= k < 2 ==> LooseSentinelFile()[k] != CloseLine
  {
    var lines := LooseSentinelFile();
    assert lines[0][1] != CloseLine[1];
    assert lines[1][1] != CloseLine[1];
  }

  /** As written: in a manager loaded from a file whose lines are all
      comments, none of them exactly the close line Add writes, Add of any IP
      panics as soon as load has seen both sentinels. */
  lemma CommentFilePanics(isIP: string -> bool, lines: seq<string>, ip: string,
                          hostsList: seq<string>)
    requires SectionSeen(lines)
    requires forall k :: 0 <= k < |lines| ==> IsCommentLine(lines[k]) && lines[k] != CloseLine
    ensures Place(LoadEntries(isIP, lines), true, ip, hostsList) ==
      Err(Panic("slice bounds out of range [-1:]"))
  {
    var entries := LoadEntries(isIP, lines);
    forall k | 0 <= k < |entries|
      ensures !OwnedFor(entries[k], ip) && entries[k].raw != CloseLine
    {
      LoadEntriesAt(isIP, lines, k);
    }
    PlaceIntoSection(entries, ip, hostsList);
  }

  lemma LooseSectionSeen()
    ensures SectionSeen(LooseSentinelFile())
  {
    var ks := Kinds(LooseSentinelFile());
    LooseOpenLine();
    LooseCloseLine();
    assert ks[0] == OpenSentinel;
    assert ks[1] == CloseSentinel;
  }

  lemma LooseLinesAreComments()
    ensures forall k :: 0 <= k < |LooseSentinelFile()| ==>
      IsCommentLine(LooseSentinelFile()[k]) && LooseSentinelFile()[k] != CloseLine
  {
    LooseOpenLine();
    LooseCloseLine();
    LooseLinesDiffer();
  }

  /** The two loose sentinels: load sees a section, and Add panics. */
  lemma LooseSentinelsPanic(isIP: string -> bool, ip: string, hostsList: seq<string>)
    ensures SectionSeen(LooseSentinelFile())
    ensures Place(LoadEntries(isIP, LooseSentinelFile()), true, ip, hostsList) ==
      Err(Panic("slice bounds out of range [-1:]"))
  {
    LooseSectionSeen();
    LooseLinesAreComments();
    CommentFilePanics(isIP, LooseSentinelFile(), ip, hostsList);
  }

  /** The close position as evidently intended: the first entry at or after
      `i` that load counts as a close sentinel. */
  function SentinelClosePositionFrom(entries: seq<Entry>, i: nat): (p: int)
    requires i <= |entries|
    ensures p == -1 || i <= p < |entries|
    ensures p >= 0 ==> IsCloseCommentEntry(entries[p])
    ensures p >= 0 ==> forall k :: i <= k < p ==> !IsCloseCommentEntry(entries[k])
    ensures p == -1 ==> forall k :: i <= k < |entries| ==> !IsCloseCommentEntry(entries[k])
    decreases |entries| - i
  {
    if i == |entries| then -1
    else if IsCloseCommentEntry(entries[i]) then i
    else SentinelClosePositionFrom(entries, i + 1)
  }

  function SentinelClosePosition(entries: seq<Entry>): (p: int)
    ensures -1 <= p < |entries|
    ensures p >= 0 ==> IsCloseCommentEntry(entries[p])
    ensures p >= 0 ==> forall k :: 0 <= k < p ==> !IsCloseCommentEntry(entries[k])
    ensures p == -1 ==> forall k :: 0 <= k < |entries| ==> !IsCloseCommentEntry(entries[k])
  {
    SentinelClosePositionFrom(entries, 0)
  }

  /** Place with the corrected close position. */
  function PlaceBySentinel(entries: seq<Entry>, hasSection: bool, ip: string,
                           hostsList: seq<string>): Result<seq<Entry>, Error>
  {
    var p := IPPosition(entries, ip);
    if p >= 0 then Ok(entries[p := MergeHosts(entries[p], hostsList)])
    else if !hasSection then
      Ok(entries + [OpenEntry, NewOwnedEntry(ip, hostsList), CloseEntry])
    else
      var c := SentinelClosePosition(entries);
      if c == -1 then Err(Panic("slice bounds out of range [-1:]"))
      else Ok(entries[..c] + [NewOwnedEntry(ip, hostsList)] + entries[c..])
  }

  /** With the corrected close position Add never panics in a manager whose
      section flag and entries come from loading a file, which is the state
      after NewManager and after every flush. */
  lemma SentinelPlaceNeverPanics(isIP: string -> bool, before: seq<Entry>, lines: seq<string>,
                                 ip: string, hostsList: seq<string>)
    ensures PlaceBySentinel(before + LoadEntries(isIP, lines), SectionSeen(lines), ip, hostsList).Ok?
  {
    var entries := before + LoadEntries(isIP, lines);
    if SectionSeen(lines) {
      var j := LoadedCloseEntry(isIP, before, lines);
      CloseEntryFound(entries, j);
    }
    PlaceBySentinelOk(entries, SectionSeen(lines), ip, hostsList);
  }

  /** A file with a section loads a close sentinel entry. */
  lemma LoadedCloseEntry(isIP: string -> bool, before: seq<Entry>, lines: seq<string>) returns (j: nat)
    requires SectionSeen(lines)
    ensures j < |before + LoadEntries(isIP, lines)|
    ensures IsCloseCommentEntry((before + LoadEntries(isIP, lines))[j])
  {
    var ks := Kinds(lines);
    var i :| 0 <= i < |ks| && ks[i] == CloseSentinel;
    assert IsCloseLine(lines[i]);
    LoadedRaw(isIP, lines, i);
    j := |before| + i;
    assert (before + LoadEntries(isIP, lines))[j] == LoadEntries(isIP, lines)[i];
  }

  /** Load keeps every line's text as its entry's text. */
  lemma LoadedRaw(isIP: string -> bool, lines: seq<string>, i: nat)
    requires i < |lines|
    ensures LoadEntries(isIP, lines)[i].raw == lines[i]
  {
    LoadEntriesAt(isIP, lines, i);
    var e := NewEntry(isIP, lines[i]);
    assert Mark(e, EntryMark).raw == e.raw;
  }

  lemma CloseEntryFound(entries: seq<Entry>, j: nat)
    requires j < |entries| && IsCloseCommentEntry(entries[j])
    ensures SentinelClosePosition(entries) >= 0
  {
  }

  lemma PlaceBySentinelOk(entries: seq<Entry>, hasSection: bool, ip: string, hostsList: seq<string>)
    requires hasSection ==> SentinelClosePosition(entries) >= 0
    ensures PlaceBySentinel(entries, hasSection, ip, hostsList).Ok?
  {
  }
}
