/** The hosts manager of pkg/hosts/manager.go: the hosts file as a list of
    lines, the entries parsed from it and whether it holds a Cloud::1
    section. Each method follows the Go method step by step and is proved to
    compute the document function of module HostsDocument that describes it. */
module HostsManager {
  import opened Wrappers
  import opened GoStrings
  import opened Errors
  import opened HostsEntries
  import opened HostsDocument

  /** What one more line does to the quantities load tracks. */
  lemma LoadStep(isIP: string -> bool, lines: seq<string>, i: nat)
    requires i < |lines|
    ensures var ks := Kinds(lines[..i + 1]);
      var e := NewEntry(isIP, lines[i]);
      ks == Kinds(lines[..i]) + [KindOf(lines[i])] &&
      (IsOpenCommentEntry(e) <==> KindOf(lines[i]) == OpenSentinel) &&
      (!IsOpenCommentEntry(e) && IsCloseCommentEntry(e) <==> KindOf(lines[i]) == CloseSentinel) &&
      InSectionAfter(ks) == (if KindOf(lines[i]) == OpenSentinel then true
                             else if KindOf(lines[i]) == CloseSentinel then false
                             else InSectionAfter(Kinds(lines[..i]))) &&
      LoadEntries(isIP, lines[..i + 1]) ==
        LoadEntries(isIP, lines[..i]) + [if InSectionAfter(ks) then Mark(e, EntryMark) else e]
  {
    var ks := Kinds(lines[..i + 1]);
    assert lines[..i + 1][..i] == lines[..i];
    assert ks[..i] == Kinds(lines[..i]);
  }

  /** A kind is among the first i + 1 lines' kinds iff it was among the
      first i or is line i's. */
  lemma KindSeenStep(lines: seq<string>, i: nat, kind: LineKind)
    requires i < |lines|
    ensures kind in Kinds(lines[..i + 1]) <==> kind in Kinds(lines[..i]) || kind == KindOf(lines[i])
  {
    assert lines[..i + 1][..i] == lines[..i];
    assert Kinds(lines[..i + 1]) == Kinds(lines[..i]) + [KindOf(lines[i])];
  }

  /** The loop of load over the scanned lines: parse each, track whether
      the section is open, mark the lines read inside it, and note which
      sentinels were seen. */
  method ScanLines(isIP: string -> bool, lines: seq<string>)
    returns (loaded: seq<Entry>, hasOpenComment: bool, hasCloseComment: bool)
    ensures loaded == LoadEntries(isIP, lines)
    ensures hasOpenComment && hasCloseComment <==> SectionSeen(lines)
  {
    loaded := [];
    var inSection := false;
    hasOpenComment := false;
    hasCloseComment := false;
    var i := 0;
    while i < |lines|
      invariant 0 <= i <= |lines|
      invariant loaded == LoadEntries(isIP, lines[..i])
      invariant inSection == InSectionAfter(Kinds(lines[..i]))
      invariant hasOpenComment <==> OpenSentinel in Kinds(lines[..i])
      invariant hasCloseComment <==> CloseSentinel in Kinds(lines[..i])
    {
      var entry := NewEntry(isIP, lines[i]);
      if IsOpenCommentEntry(entry) {
        inSection := true;
        hasOpenComment := true;
      } else if IsCloseCommentEntry(entry) {
        inSection := false;
        hasCloseComment := true;
      }
      if inSection {
        entry := Mark(entry, EntryMark);
      }
      LoadStep(isIP, lines, i);
      KindSeenStep(lines, i, OpenSentinel);
      KindSeenStep(lines, i, CloseSentinel);
      loaded := loaded + [entry];
      i := i + 1;
    }
    assert lines[..i] == lines;
  }

  /** The merge loop of Add: append each listed host not yet present. */
  method AddMissingHosts(hs: seq<string>, hostsList: seq<string>) returns (hostsCopy: seq<string>)
    ensures hostsCopy == AppendMissing(hs, hostsList)
  {
    hostsCopy := hs;
    for j := 0 to |hostsList|
      invariant hostsCopy == AppendMissing(hs, hostsList[..j])
    {
      assert hostsList[..j + 1][..j] == hostsList[..j];
      if hostsList[j] !in hostsCopy {
        hostsCopy := hostsCopy + [hostsList[j]];
      }
    }
    assert hostsList[..|hostsList|] == hostsList;
  }

  /** The loop of Remove over the entries: pass every entry through but the
      owned data lines for the IP, which lose the listed hosts and are
      rebuilt from their text, or dropped when no host is left. */
  method RemoveListedHosts(isIP: string -> bool, es: seq<Entry>, ip: string,
                           hostsList: seq<string>)
    returns (outputEntries: seq<Entry>)
    ensures outputEntries == RemoveTargets(isIP, es, ip, hostsList)
  {
    outputEntries := [];
    for k := 0 to |es|
      invariant outputEntries == RemoveTargets(isIP, es[..k], ip, hostsList)
    {
      assert es[..k + 1][..k] == es[..k];
      var entry := es[k];
      var marked := IsMarkedWith(entry, EntryMark);
      if entry.err || !marked || IsComment(entry) || entry.ip != ip {
        outputEntries := outputEntries + [entry];
      } else {
        var newHosts := KeptHosts(entry.hosts, hostsList);
        if |newHosts| > 0 {
          var newLineRaw := RebuildLine(entry.ip, newHosts);
          outputEntries := outputEntries + [NewEntry(isIP, newLineRaw)];
        }
      }
    }
    assert es[..|es|] == es;
  }

  /** The loop of hostsPerLine over the entries. */
  method SplitLongEntries(es: seq<Entry>, count: int) returns (newEntries: seq<Entry>)
    requires count > 0
    ensures newEntries == SplitAll(es, count)
  {
    newEntries := [];
    for k := 0 to |es|
      invariant newEntries == SplitAll(es[..k], count)
    {
      assert es[..k + 1][..k] == es[..k];
      var entry := es[k];
      var marked := IsMarkedWith(entry, EntryMark);
      if |entry.hosts| <= count || !marked {
        newEntries := newEntries + [entry];
      } else {
        var chunks := Chunks(entry, count);
        newEntries := newEntries + chunks;
      }
    }
    assert es[..|es|] == es;
  }

  /** The inner loop of hostsPerLine: copies of the entry holding `count`
      hosts each, the last one the rest, each printed again. */
  method Chunks(entry: Entry, count: nat) returns (chunks: seq<Entry>)
    requires count > 0
    ensures chunks == ChunksFrom(entry, count, 0)
  {
    chunks := [];
    var i := 0;
    while i < |entry.hosts|
      invariant chunks + ChunksFrom(entry, count, i) == ChunksFrom(entry, count, 0)
      decreases |entry.hosts| - i
    {
      var end := |entry.hosts|;
      if end > i + count {
        end := i + count;
      }
      var entryCopy := entry.(hosts := entry.hosts[i..end]);
      entryCopy := entryCopy.(raw := Export(entryCopy));
      ChunksFromStep(entry, count, i, end, entryCopy, chunks);
      chunks := chunks + [entryCopy];
      i := i + count;
    }
  }

  lemma ChunksFromStep(e: Entry, count: nat, i: nat, end: nat, chunk: Entry, done: seq<Entry>)
    requires count > 0 && i < |e.hosts|
    requires end == if |e.hosts| > i + count then i + count else |e.hosts|
    requires chunk == ChunkAt(e, i, end)
    ensures done + ChunksFrom(e, count, i) == (done + [chunk]) + ChunksFrom(e, count, i + count)
  {
    assert ChunksFrom(e, count, i) == [chunk] + ChunksFrom(e, count, i + count);
  }

  /** The first loop of clean: every entry normalised in place. */
  method CleanEntries(entries: seq<Entry>) returns (es: seq<Entry>)
    requires AllWellFormed(entries)
    ensures es == CleanAll(entries)
  {
    ghost var cleaned := CleanAll(entries);
    es := entries;
    for pos := 0 to |es|
      invariant |es| == |entries| == |cleaned|
      invariant forall k :: 0 <= k < pos ==> es[k] == cleaned[k]
      invariant forall k :: pos <= k < |es| ==> es[k] == entries[k]
    {
      var entry := NormaliseEntry(entries[pos]);
      es := es[pos := entry];
    }
  }

  /** The hosts of a line that are not to be removed, in order. */
  method KeptHosts(hs: seq<string>, hostsList: seq<string>) returns (newHosts: seq<string>)
    ensures newHosts == Without(hs, hostsList)
  {
    newHosts := [];
    for j := 0 to |hs|
      invariant newHosts == Without(hs[..j], hostsList)
    {
      assert hs[..j + 1] == hs[..j] + [hs[j]];
      WithoutAppend(hs[..j], hs[j], hostsList);
      if hs[j] !in hostsList {
        newHosts := newHosts + [hs[j]];
      }
    }
    assert hs[..|hs|] == hs;
  }

  /** The line Remove rebuilds: the IP, then a space and each host. */
  method RebuildLine(ip: string, newHosts: seq<string>) returns (line: string)
    requires newHosts != []
    ensures line == BuildRawLine(ip, newHosts)
  {
    line := ip;
    for j := 0 to |newHosts|
      invariant j == 0 ==> line == ip
      invariant j > 0 ==> line == BuildRawLine(ip, newHosts[..j])
    {
      if j > 0 {
        assert newHosts[..j + 1] == newHosts[..j] + [newHosts[j]];
        JoinSnoc(newHosts[..j], newHosts[j], " ");
      } else {
        assert newHosts[..1] == [newHosts[0]];
      }
      line := line + " " + newHosts[j];
    }
    assert newHosts[..|newHosts|] == newHosts;
  }

  /** What clean does to one entry: RemoveDuplicateHosts, then SortHosts. */
  method NormaliseEntry(e: Entry) returns (r: Entry)
    requires WellFormed(e)
    ensures r == CleanEntry(e)
  {
    var unique := RemoveDuplicateHosts(e);
    CleanMatches(e, unique);
    r := SortHosts(unique);
  }

  class Manager {
    /** net.ParseIP succeeds on the string. */
    const isIP: string -> bool
    /** The platform constant HostsPerLine: -1 (unlimited) except on Windows. */
    const hostsPerLine: int
    /** The hosts file on disk, one string per line. */
    var file: seq<string>
    var entries: seq<Entry>
    var hasCloudUnoSection: bool

    /** Every entry is one the parser or the manager can produce. */
    ghost predicate Valid()
      reads this
    {
      IPLiteralsAreTokens(isIP) && AllWellFormed(entries)
    }

    /** NewManager: start from no entries and load the file. */
    constructor (isIP: string -> bool, hostsPerLine: int, file: seq<string>)
      requires IPLiteralsAreTokens(isIP)
      ensures this.isIP == isIP && this.hostsPerLine == hostsPerLine
      ensures this.file == file
      ensures entries == LoadEntries(isIP, file)
      ensures hasCloudUnoSection == SectionSeen(file)
      ensures Valid()
    {
      this.isIP := isIP;
      this.hostsPerLine := hostsPerLine;
      this.file := file;
      entries := [];
      hasCloudUnoSection := false;
      new;
      Load();
    }

    /** load: parse every line of the file, mark the lines read inside the
        section and append them to the entries already held. */
    method Load()
      requires Valid()
      modifies this
      ensures file == old(file)
      ensures entries == old(entries) + LoadEntries(isIP, file)
      ensures hasCloudUnoSection == SectionSeen(file)
      ensures Valid()
    {
      var loaded, hasOpenComment, hasCloseComment := ScanLines(isIP, file);
      LoadEntriesWellFormed(isIP, file);
      entries := entries + loaded;
      hasCloudUnoSection := hasOpenComment && hasCloseComment;
    }

    /** getIPPosition: the first owned data line for the IP, or -1. */
    method GetIPPosition(ip: string) returns (position: int)
      ensures position == IPPosition(entries, ip)
    {
      position := -1;
      var i := 0;
      while position == -1 && i < |entries|
        invariant 0 <= i <= |entries|
        invariant position == -1 ==> forall k :: 0 <= k < i ==> !OwnedFor(entries[k], ip)
        invariant position != -1 ==> 0 <= position < i && OwnedFor(entries[position], ip)
        invariant position != -1 ==> forall k :: 0 <= k < position ==> !OwnedFor(entries[k], ip)
      {
        var entry := entries[i];
        var marked := IsMarkedWith(entry, EntryMark);
        if !IsComment(entry) && marked && entry.raw != "" && entry.ip == ip {
          position := i;
        }
        i := i + 1;
      }
    }

    /** getCloseCloudUnoSectionPosition: the first entry whose line is exactly
        the close line, or -1. */
    method GetCloseCloudUnoSectionPosition() returns (position: int)
      ensures position == ClosePosition(entries)
    {
      position := -1;
      var i := 0;
      while position == -1 && i < |entries|
        invariant 0 <= i <= |entries|
        invariant position == -1 ==> forall k :: 0 <= k < i ==> entries[k].raw != CloseLine
        invariant position != -1 ==> 0 <= position < i && entries[position].raw == CloseLine
        invariant position != -1 ==> forall k :: 0 <= k < position ==> entries[k].raw != CloseLine
      {
        if entries[i].raw == CloseLine {
          position := i;
        }
        i := i + 1;
      }
    }

    /** addEntryInNewCloudUnoSection: append the open line, the entry and the
        close line. */
    method AddEntryInNewCloudUnoSection(entry: Entry)
      modifies this
      ensures entries == old(entries) + [OpenEntry, entry, CloseEntry]
      ensures file == old(file) && hasCloudUnoSection == old(hasCloudUnoSection)
    {
      entries := entries + [OpenEntry, entry, CloseEntry];
    }

    /** addEntryToCloudUnoSection: insert the entry at the close position.
        Without an exact close line the position is -1 and Go panics; the
        model reports it and changes nothing. */
    method AddEntryToCloudUnoSection(entry: Entry) returns (err: Option<Error>)
      modifies this
      ensures var c := ClosePosition(old(entries));
        if c == -1 then err == Some(Panic("slice bounds out of range [-1:]")) &&
          entries == old(entries)
        else err == None && entries == old(entries)[..c] + [entry] + old(entries)[c..]
      ensures file == old(file) && hasCloudUnoSection == old(hasCloudUnoSection)
    {
      var closePos := GetCloseCloudUnoSectionPosition();
      if closePos == -1 {
        return Some(Panic("slice bounds out of range [-1:]"));
      }
      entries := InsertIntoSlice(entries, closePos, entry);
      err := None;
    }

    /** Add: for a parsed IP, merge the hosts into its owned entry or insert a
        new entry, normalise, take the hosts away from every other IP and
        write the file. An IP that does not parse, or a panic in the
        insertion, leaves everything as it was. */
    method Add(ip: string, hosts: string) returns (err: Option<Error>)
      requires Valid()
      modifies this
      ensures Valid()
      ensures !isIP(ip) ==>
        err == Some(InvalidIPAddress(ip)) &&
        file == old(file) && entries == old(entries) &&
        hasCloudUnoSection == old(hasCloudUnoSection)
      ensures isIP(ip) ==>
        match AddPrepared(old(entries), old(hasCloudUnoSection), ip, Split(hosts, ','), hostsPerLine)
        case Err(e) =>
          err == Some(e) && file == old(file) && entries == old(entries) &&
          hasCloudUnoSection == old(hasCloudUnoSection)
        case Ok(prepared) =>
          err == None && file == ExportAll(prepared) &&
          entries == prepared + LoadEntries(isIP, file) &&
          hasCloudUnoSection == SectionSeen(file)
    {
      if !isIP(ip) {
        return Some(InvalidIPAddress(ip));
      }
      var hostsList := Split(hosts, ',');
      ghost var placed := Place(entries, hasCloudUnoSection, ip, hostsList);
      PlaceWellFormed(isIP, entries, hasCloudUnoSection, ip, hostsList);
      var position := GetIPPosition(ip);
      if position == -1 {
        var entry := NewOwnedEntry(ip, hostsList);
        if !hasCloudUnoSection {
          AddEntryInNewCloudUnoSection(entry);
          hasCloudUnoSection := true;
        } else {
          err := AddEntryToCloudUnoSection(entry);
          if err.Some? {
            return;
          }
        }
      } else {
        var hostsCopy := AddMissingHosts(entries[position].hosts, hostsList);
        var updated := entries[position].(hosts := hostsCopy);
        entries := entries[position := updated.(raw := Export(updated))];
      }
      assert placed == Ok(entries);
      Clean();
      RemoveHostsFromOtherIPs(ip, hostsList);
      Flush();
      err := None;
    }

    /** Remove: in every owned data line for a parsed IP drop the listed hosts,
        rebuilding the line from its text or dropping it when no host is left;
        remove the sentinels when no owned entry remains; normalise and write
        the file. An IP that does not parse leaves everything as it was. */
    method Remove(ip: string, hosts: string) returns (err: Option<Error>)
      requires Valid()
      modifies this
      ensures Valid()
      ensures !isIP(ip) ==>
        err == Some(InvalidIPAddress(ip)) &&
        file == old(file) && entries == old(entries) &&
        hasCloudUnoSection == old(hasCloudUnoSection)
      ensures isIP(ip) ==>
        var prepared := RemovePrepared(isIP, old(entries), ip, Split(hosts, ','), hostsPerLine);
        err == None && file == ExportAll(prepared) &&
        entries == prepared + LoadEntries(isIP, file) &&
        hasCloudUnoSection == SectionSeen(file)
    {
      var hostsList := Split(hosts, ',');
      if !isIP(ip) {
        return Some(InvalidIPAddress(ip));
      }
      var outputEntries := RemoveListedHosts(isIP, entries, ip, hostsList);
      RemoveTargetsWellFormed(isIP, entries, ip, hostsList);
      entries := outputEntries;
      var hasMarked := HasMarkedEntries();
      if !hasMarked {
        RemoveSectionWellFormed(entries);
        RemoveCloudUnoSection();
      }
      assert entries ==
        if HostsDocument.HasMarkedEntries(outputEntries) then outputEntries
        else RemoveSection(outputEntries);
      Clean();
      Flush();
      err := None;
    }

    /** removeCloudUnoSection: keep every entry but the sentinels. */
    method RemoveCloudUnoSection()
      modifies this
      ensures entries == RemoveSection(old(entries))
      ensures file == old(file) && hasCloudUnoSection == old(hasCloudUnoSection)
    {
      var es := entries;
      var newEntries: seq<Entry> := [];
      for k := 0 to |es|
        invariant unchanged(this)
        invariant newEntries == RemoveSection(es[..k])
      {
        assert es[..k + 1][..k] == es[..k];
        var entry := es[k];
        var isCloudUnoSectionComment := IsOpenCommentEntry(entry) || IsCloseCommentEntry(entry);
        if !isCloudUnoSectionComment {
          newEntries := newEntries + [entry];
        }
      }
      assert es[..|es|] == es;
      entries := newEntries;
    }

    /** hasMarkedEntries: some marked entry other than a sentinel remains. */
    method HasMarkedEntries() returns (hasMarkedEntry: bool)
      ensures hasMarkedEntry == HostsDocument.HasMarkedEntries(entries)
    {
      hasMarkedEntry := false;
      var i := 0;
      while !hasMarkedEntry && i < |entries|
        invariant 0 <= i <= |entries|
        invariant !hasMarkedEntry ==>
          forall k :: 0 <= k < i ==> !(EntryMark in entries[k].marks && !IsSentinel(entries[k]))
        invariant hasMarkedEntry ==>
          0 < i && EntryMark in entries[i - 1].marks && !IsSentinel(entries[i - 1])
      {
        var entry := entries[i];
        var isCloudUnoSectionComment := IsOpenCommentEntry(entry) || IsCloseCommentEntry(entry);
        var marked := IsMarkedWith(entry, EntryMark);
        hasMarkedEntry := marked && !isCloudUnoSectionComment;
        i := i + 1;
      }
    }

    /** removeHostsFromOtherIPs: for each host in turn, take it out of every
        entry for another IP. */
    method RemoveHostsFromOtherIPs(keepForIP: string, hosts: seq<string>)
      requires Valid()
      modifies this
      ensures entries == HostsDocument.RemoveHostsFromOtherIPs(old(entries), keepForIP, hosts)
      ensures file == old(file) && hasCloudUnoSection == old(hasCloudUnoSection)
      ensures Valid()
    {
      var es := entries;
      forall k | 0 <= k < |entries| ensures StripEntry(entries[k], keepForIP, []) == entries[k] {
        StripNothing(entries[k], keepForIP);
      }
      assert hosts[..0] == [];
      for hi := 0 to |hosts|
        invariant unchanged(this)
        invariant |es| == |entries|
        invariant forall k :: 0 <= k < |es| ==>
          es[k] == StripEntry(entries[k], keepForIP, hosts[..hi])
      {
        var host := hosts[hi];
        assert hosts[..hi + 1] == hosts[..hi] + [host];
        for pos := 0 to |es|
          invariant unchanged(this)
            invariant |es| == |entries|
          invariant forall k :: 0 <= k < pos ==>
            es[k] == StripEntry(entries[k], keepForIP, hosts[..hi + 1])
          invariant forall k :: pos <= k < |es| ==>
            es[k] == StripEntry(entries[k], keepForIP, hosts[..hi])
        {
          var entry := es[pos];
          StripStep(entries[pos], keepForIP, hosts[..hi], host);
          if host in entry.hosts && entry.ip != keepForIP {
            entry := entry.(hosts := RemoveFromSlice(host, entry.hosts));
          }
          es := es[pos := entry];
        }
      }
      assert hosts[..|hosts|] == hosts;
      StripWellFormed(entries, keepForIP, hosts);
      entries := es;
    }

    /** clean: remove repeated hosts and sort the hosts of every entry, then
        split long owned lines. */
    method Clean()
      requires Valid()
      modifies this
      ensures entries == HostsDocument.Clean(old(entries), hostsPerLine)
      ensures file == old(file) && hasCloudUnoSection == old(hasCloudUnoSection)
      ensures Valid()
    {
      var es := CleanEntries(entries);
      CleanWellFormed(entries, hostsPerLine);
      entries := es;
      HostsPerLine(hostsPerLine);
    }

    /** hostsPerLine: with a positive count, every owned entry holding more
        than `count` hosts is replaced by consecutive lines of at most `count`
        hosts each. */
    method HostsPerLine(count: int)
      modifies this
      ensures entries == HostsDocument.HostsPerLine(old(entries), count)
      ensures file == old(file) && hasCloudUnoSection == old(hasCloudUnoSection)
    {
      if count <= 0 {
        return;
      }
      var newEntries := SplitLongEntries(entries, count);
      entries := newEntries;
    }

    /** flush: write every entry's printed line, then load the file again,
        appending its entries to those already held. */
    method Flush()
      requires Valid()
      modifies this
      ensures file == ExportAll(old(entries))
      ensures entries == old(entries) + LoadEntries(isIP, file)
      ensures hasCloudUnoSection == SectionSeen(file)
      ensures Valid()
    {
      var lines: seq<string> := [];
      for k := 0 to |entries|
        invariant unchanged(this)
        invariant |lines| == k
        invariant forall j :: 0 <= j < k ==> lines[j] == Export(entries[j])
      {
        lines := lines + [Export(entries[k])];
      }
      file := lines;
      Load();
    }
  }
}
