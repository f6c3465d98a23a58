/** One line of a hosts file: parsing, printing and the edits the hosts
    manager applies to a line (pkg/hosts/entries.go). */
module HostsEntries {
  import opened GoStrings

  const CommentChar: char := '#'

  /** A hosts-file entry. Go's `Entry` is a value struct held by value in the
      manager's slice: every edit is made on a copy that is stored back, so
      each edit here returns the updated entry. `err` stands for `Err != nil`;
      the text of that error is not modelled. */
  datatype Entry = Entry(ip: string, hosts: seq<string>, raw: string,
                         err: bool, comment: string, marks: seq<string>)

  /** The first non-space character of the line is `#`. Go writes this as
      strings.HasPrefix(strings.TrimSpace(raw), "#"); CommentLineIsTrimPrefix
      proves the two agree. */
  predicate IsCommentLine(raw: string) {
    raw != [] &&
    if IsSpace(raw[0]) then IsCommentLine(raw[1..]) else raw[0] == CommentChar
  }

  lemma {:induction false} CommentLineIsTrimPrefix(raw: string)
    ensures IsCommentLine(raw) <==> HasPrefix(TrimSpace(raw), [CommentChar])
  {
    TrimSpaceHead(raw);
    CommentLineTrimLeft(raw);
  }

  lemma {:induction false} CommentLineTrimLeft(raw: string)
    ensures IsCommentLine(raw) <==> TrimLeft(raw) != [] && TrimLeft(raw)[0] == CommentChar
  {
    if raw != [] && IsSpace(raw[0]) {
      CommentLineTrimLeft(raw[1..]);
    }
  }

  /** Entry.IsComment: the whole line is a comment. */
  predicate IsComment(e: Entry) {
    IsCommentLine(e.raw)
  }

  /** Entry.HasComment: the line holds a `#` somewhere. */
  predicate HasComment(e: Entry) {
    CommentChar in e.raw
  }

  /** Entry.IsValid. */
  predicate IsValid(e: Entry) {
    e.ip != ""
  }

  /** Entry.IsMalformed. */
  predicate IsMalformed(e: Entry) {
    e.err
  }

  /** `net.ParseIP` is a parameter of the model: `isIP(s)` holds when it
      returns a non-nil address. The model relies only on this: an IP literal
      is one word and holds no `#`, which every textual IPv4 or IPv6 form
      satisfies. */
  ghost predicate IPLiteralsAreTokens(isIP: string -> bool) {
    forall s :: isIP(s) ==> IsToken(s) && CommentChar !in s
  }

  /** A comment line is one whose first non-space character is `#`. */
  lemma {:induction false} CommentLineMeans(raw: string)
    ensures IsCommentLine(raw) <==>
      exists i :: 0 <= i < |raw| && raw[i] == CommentChar && AllSpace(raw[..i])
  {
    if raw != [] {
      if IsSpace(raw[0]) {
        CommentLineMeans(raw[1..]);
        if IsCommentLine(raw) {
          var i :| 0 <= i < |raw[1..]| && raw[1..][i] == CommentChar && AllSpace(raw[1..][..i]);
          assert raw[i + 1] == CommentChar && AllSpace(raw[..i + 1]);
        }
        forall i | 0 <= i < |raw| && raw[i] == CommentChar && AllSpace(raw[..i])
          ensures IsCommentLine(raw)
        {
          assert !IsSpace(raw[i]);
          assert i > 0;
          assert raw[1..][..i - 1] == raw[..i][1..];
          assert raw[1..][i - 1] == CommentChar && AllSpace(raw[1..][..i - 1]);
        }
      } else if raw[0] == CommentChar {
        assert AllSpace(raw[..0]);
      } else {
        forall i | 0 <= i < |raw| && raw[i] == CommentChar
          ensures !AllSpace(raw[..i])
        {
          assert i > 0 && raw[..i][0] == raw[0];
        }
      }
    }
  }

  /** NewEntry: parse one line. `net.ParseIP` is the parameter `isIP`. */
  function NewEntry(isIP: string -> bool, raw: string): (e: Entry)
    ensures e.raw == raw && e.marks == []
  {
    if IsCommentLine(raw) then Entry("", [], raw, false, "", [])
    else
      var data := if CommentChar in raw then Split(raw, CommentChar)[0] else raw;
      var comment := if CommentChar in raw then Split(raw, CommentChar)[1] else "";
      var fields := Fields(data);
      if fields == [] then Entry("", [], raw, false, comment, [])
      else Entry(fields[0], fields[1..], raw, !isIP(fields[0]), comment, [])
  }

  /** The text before the first `c`, or all of `s`. */
  function UpTo(s: string, c: char): string {
    var i := Index(s, c);
    if i == -1 then s else s[..i]
  }

  /** Export of a line that is not a whole-line comment. */
  function DataLine(e: Entry): string {
    e.ip + " " + Join(e.hosts, " ") +
    (if e.comment != "" then " " + [CommentChar] + e.comment else "")
  }

  /** Entry.Export: print the entry as a hosts-file line. */
  function Export(e: Entry): string {
    if IsComment(e) then e.raw else DataLine(e)
  }

  /** A comment line parses to an entry holding only the line, and prints
      back unchanged. */
  lemma NewEntryOfCommentLine(isIP: string -> bool, raw: string)
    requires IsCommentLine(raw)
    ensures NewEntry(isIP, raw) == Entry("", [], raw, false, "", [])
    ensures Export(NewEntry(isIP, raw)) == raw
  {
  }

  /** A data line: the comment is the text between the first and the second
      `#`; the IP is the first word before the first `#` and the hosts are the
      other words; `err` is set when the first word is not an IP, and the IP
      and hosts are filled in all the same. */
  lemma NewEntryOfDataLine(isIP: string -> bool, raw: string)
    requires !IsCommentLine(raw)
    ensures var e := NewEntry(isIP, raw);
      var words := Fields(UpTo(raw, CommentChar));
      var i := Index(raw, CommentChar);
      e.comment == (if i == -1 then "" else UpTo(raw[i + 1..], CommentChar)) &&
      (words == [] ==> e.ip == "" && e.hosts == [] && !e.err) &&
      (words != [] ==>
        e.ip == words[0] && e.hosts == words[1..] && e.err == !isIP(words[0]))
  {
    var i := Index(raw, CommentChar);
    SplitAtFirst(raw, CommentChar);
    if i >= 0 {
      SplitAtFirst(raw[i + 1..], CommentChar);
    }
  }

  /** A blank line parses to an empty entry, which prints as a single space. */
  lemma BlankLine(isIP: string -> bool, raw: string)
    requires AllSpace(raw)
    ensures NewEntry(isIP, raw) == Entry("", [], raw, false, "", [])
    ensures Export(NewEntry(isIP, raw)) == " "
  {
    SpaceNotComment(raw);
    assert !IsSpace(CommentChar);
    FieldsOfSpace(raw);
  }

  lemma {:induction false} SpaceNotComment(raw: string)
    requires AllSpace(raw)
    ensures !IsCommentLine(raw)
  {
    if raw != [] {
      SpaceNotComment(raw[1..]);
    }
  }

  /** The shape of every entry the manager holds: a whole-line comment holds
      no hosts; any other line is blank or starts with its IP, so printing it
      again, with any hosts, never turns it into a comment. */
  predicate WellFormed(e: Entry) {
    if IsComment(e) then e.hosts == []
    else if e.ip == "" then e.hosts == [] && e.comment == ""
    else !IsSpace(e.ip[0]) && e.ip[0] != CommentChar
  }

  /** The printed form of a well-formed data entry is not a comment. */
  lemma DataLineNotComment(e: Entry)
    requires e.ip == "" ==> e.hosts == [] && e.comment == ""
    requires e.ip != "" ==> !IsSpace(e.ip[0]) && e.ip[0] != CommentChar
    ensures !IsCommentLine(DataLine(e))
  {
    var line := DataLine(e);
    if e.ip == "" {
      assert line == " ";
      assert line[1..] == [];
    } else {
      assert line[0] == e.ip[0];
    }
  }

  /** A `#` preceded only by white space starts a comment line. */
  lemma HashAfterSpace(raw: string, i: nat)
    requires i < |raw| && raw[i] == CommentChar && AllSpace(raw[..i])
    ensures IsCommentLine(raw)
  {
    CommentLineMeans(raw);
  }

  /** A data line with a `#` has a word before it. */
  lemma WordBeforeHash(raw: string)
    ensures CommentChar in raw && Fields(UpTo(raw, CommentChar)) == [] ==>
      IsCommentLine(raw)
  {
    if CommentChar in raw && Fields(UpTo(raw, CommentChar)) == [] {
      FieldsEmpty(UpTo(raw, CommentChar));
      HashAfterSpace(raw, Index(raw, CommentChar));
    }
  }

  /** Every parsed line is well formed. */
  lemma NewEntryWellFormed(isIP: string -> bool, raw: string)
    ensures WellFormed(NewEntry(isIP, raw))
  {
    if !IsCommentLine(raw) {
      var data := UpTo(raw, CommentChar);
      NewEntryOfDataLine(isIP, raw);
      assert CommentChar !in data;
      FieldsAvoid(data, CommentChar);
      WordBeforeHash(raw);
    }
  }

  /** The words of a printed data entry: its IP then its hosts. */
  lemma DataLineWords(e: Entry)
    requires IsToken(e.ip) && AllTokens(e.hosts)
    ensures var body := e.ip + " " + Join(e.hosts, " ");
      Fields(body) == [e.ip] + e.hosts && Fields(body + " ") == [e.ip] + e.hosts
  {
    var words := [e.ip] + e.hosts;
    assert AllTokens(words);
    var body := e.ip + " " + Join(e.hosts, " ");
    var t := if e.hosts == [] then " " else "";
    assert body == Join(words, " ") + t by {
      if e.hosts != [] {
        JoinCons(e.ip, e.hosts, " ");
      }
    }
    FieldsOfJoin(words, t);
    assert body + " " == Join(words, " ") + (t + " ");
    FieldsOfJoin(words, t + " ");
  }

  /** Round trip: parsing a printed data entry gives back its IP, hosts and
      comment, provided the IP and the hosts are words without `#` and the
      comment holds no `#`; the error flag then says whether the IP parses. */
  lemma ExportParses(isIP: string -> bool, e: Entry)
    requires !IsComment(e)
    requires IsToken(e.ip) && CommentChar !in e.ip
    requires AllTokens(e.hosts)
    requires forall i :: 0 <= i < |e.hosts| ==> CommentChar !in e.hosts[i]
    requires CommentChar !in e.comment
    ensures NewEntry(isIP, Export(e)) ==
      Entry(e.ip, e.hosts, Export(e), !isIP(e.ip), e.comment, [])
  {
    var line := DataLine(e);
    var body := e.ip + " " + Join(e.hosts, " ");
    var words := [e.ip] + e.hosts;
    assert !IsCommentLine(line) by {
      DataLineNotComment(e);
    }
    assert CommentChar !in body by {
      JoinAvoids(e.hosts, " ", CommentChar);
    }
    assert Fields(body) == words && Fields(body + " ") == words by {
      DataLineWords(e);
    }
    PrintedLineParses(isIP, line, body, e.comment, words);
    assert words[1..] == e.hosts;
  }

  /** NewEntry of `body`, optionally followed by ` #` and a comment, where
      neither holds a `#`. */
  lemma PrintedLineParses(isIP: string -> bool, line: string, body: string,
                          comment: string, words: seq<string>)
    requires CommentChar !in body && CommentChar !in comment
    requires line ==
      body + (if comment != "" then " " + [CommentChar] + comment else "")
    requires !IsCommentLine(line) && words != []
    requires Fields(body) == words && Fields(body + " ") == words
    ensures NewEntry(isIP, line) ==
      Entry(words[0], words[1..], line, !isIP(words[0]), comment, [])
  {
    LineParts(line, body, comment);
    if comment == "" {
      ParsedDataLine(isIP, line, words, comment);
    } else {
      var i := |body| + 1;
      assert UpTo(line[i + 1..], CommentChar) == comment;
      ParsedDataLine(isIP, line, words, comment);
    }
  }

  /** NewEntry of a data line whose words and comment are known. */
  lemma ParsedDataLine(isIP: string -> bool, line: string, words: seq<string>,
                       comment: string)
    requires !IsCommentLine(line) && words != []
    requires Fields(UpTo(line, CommentChar)) == words
    requires Index(line, CommentChar) == -1 <==> comment == ""
    requires comment != "" ==>
      UpTo(line[Index(line, CommentChar) + 1..], CommentChar) == comment
    ensures NewEntry(isIP, line) ==
      Entry(words[0], words[1..], line, !isIP(words[0]), comment, [])
  {
    NewEntryOfDataLine(isIP, line);
  }

  /** Where the `#` of a printed data line is. */
  lemma LineParts(line: string, body: string, comment: string)
    requires CommentChar !in body && CommentChar !in comment
    requires line ==
      body + (if comment != "" then " " + [CommentChar] + comment else "")
    ensures comment == "" ==> Index(line, CommentChar) == -1 && UpTo(line, CommentChar) == body
    ensures comment != "" ==>
      Index(line, CommentChar) == |body| + 1 &&
      UpTo(line, CommentChar) == body + " " &&
      UpTo(line[|body| + 2..], CommentChar) == comment
  {
    if comment == "" {
      assert line == body;
    } else {
      var i := |body| + 1;
      assert line == (body + " ") + [CommentChar] + comment;
      assert line[..i] == body + " " && line[i + 1..] == comment;
    }
  }

  /** Entry.Mark: add a mark. Marks are never printed. */
  function Mark(e: Entry, mark: string): (r: Entry)
    ensures mark in r.marks
    ensures forall m :: m in r.marks <==> m in e.marks || m == mark
    ensures r.(marks := e.marks) == e
    ensures Export(r) == Export(e)
  {
    e.(marks := e.marks + [mark])
  }

  /** Entry.IsMarkedWith: a linear search of the marks. */
  method IsMarkedWith(e: Entry, mark: string) returns (hasMark: bool)
    ensures hasMark <==> mark in e.marks
  {
    hasMark := false;
    var i := 0;
    while !hasMark && i < |e.marks|
      invariant 0 <= i <= |e.marks|
      invariant hasMark <==> mark in e.marks[..i]
    {
      assert e.marks[..i + 1] == e.marks[..i] + [e.marks[i]];
      hasMark := e.marks[i] == mark;
      i := i + 1;
    }
    assert !hasMark ==> e.marks[..i] == e.marks;
  }

  /** Entry.RemoveDuplicateHosts: collect the hosts into a set, then list the
      set in whatever order Go's map iteration yields (here: any order), and
      print the entry again. */
  method RemoveDuplicateHosts(e: Entry) returns (r: Entry)
    ensures NoDuplicates(r.hosts)
    ensures forall h :: h in r.hosts <==> h in e.hosts
    ensures r == e.(hosts := r.hosts, raw := Export(e.(hosts := r.hosts)))
  {
    var unique: set<string> := {};
    for i := 0 to |e.hosts|
      invariant unique == set k | 0 <= k < i :: e.hosts[k]
    {
      unique := unique + {e.hosts[i]};
    }
    var hosts: seq<string> := [];
    var rest := unique;
    while rest != {}
      invariant rest <= unique
      invariant NoDuplicates(hosts)
      invariant forall h :: h in hosts <==> h in unique && h !in rest
      decreases |rest|
    {
      var k :| k in rest;
      hosts := hosts + [k];
      rest := rest - {k};
    }
    var next := e.(hosts := hosts);
    r := next.(raw := Export(next));
  }

  /** Entry.Combine: append the other entry's hosts and join the comments.
      The raw line becomes the other entry's printed line. */
  function Combine(e: Entry, other: Entry): (r: Entry)
    ensures r.hosts == e.hosts + other.hosts
    ensures r.comment ==
      if e.comment == "" then other.comment else e.comment + " " + other.comment
    ensures r.raw == Export(other)
    ensures r.(hosts := e.hosts, comment := e.comment, raw := e.raw) == e
  {
    var joined := e.(hosts := e.hosts + other.hosts,
                     comment := if e.comment == "" then other.comment
                                else e.comment + " " + other.comment);
    joined.(raw := Export(other))
  }

  /** Entry.SortHosts: sort the hosts and print the entry again. */
  function SortHosts(e: Entry): (r: Entry)
    ensures Sorted(r.hosts)
    ensures multiset(r.hosts) == multiset(e.hosts)
    ensures r == e.(hosts := r.hosts, raw := Export(e.(hosts := r.hosts)))
  {
    var sorted := e.(hosts := SortStrings(e.hosts));
    sorted.(raw := Export(sorted))
  }

  /** Entry.RegenerateExport: rebuild the raw line from the IP and hosts,
      dropping any comment. */
  function RegenerateExport(e: Entry): (r: Entry)
    ensures r == e.(raw := r.raw)
    ensures e.comment == "" ==> r.raw == DataLine(e)
  {
    e.(raw := e.ip + " " + Join(e.hosts, " "))
  }

  /** The rebuilt line drops the comment: when neither the IP nor any host
      holds `#`, the new raw line holds none. */
  lemma RegenerateDropsComment(e: Entry)
    requires CommentChar !in e.ip
    requires forall i :: 0 <= i < |e.hosts| ==> CommentChar !in e.hosts[i]
    ensures CommentChar !in RegenerateExport(e).raw
  {
    JoinAvoids(e.hosts, " ", CommentChar);
  }

  /** InsertIntoSlice: grow the slice by one, shift the tail up and write the
      value at the index. Go panics for an index outside 0..len(slice). */
  method InsertIntoSlice(slice: seq<Entry>, index: int, value: Entry)
    returns (r: seq<Entry>)
    requires 0 <= index <= |slice|
    ensures r == slice[..index] + [value] + slice[index..]
  {
    if |slice| == index {
      return slice + [value];
    }
    r := slice[..index + 1] + slice[index..];
    r := r[index := value];
  }
}
