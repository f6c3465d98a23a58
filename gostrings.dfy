/** The parts of Go's `strings`, `sort` and `strconv` packages that the hosts
    manager, the secret store and the REST controller rely on, written out on
    `string` (a sequence of Unicode scalar values). */
module GoStrings {

  // ---------------------------------------------------------------------
  // White space (unicode.IsSpace), TrimSpace, Fields
  // ---------------------------------------------------------------------

  /** The characters `unicode.IsSpace` accepts: the Unicode White_Space set. */
  predicate IsSpace(c: char) {
    ('\t' <= c <= '\r') || c == ' ' || c == '\U{0085}' || c == '\U{00A0}' ||
    c == '\U{1680}' || ('\U{2000}' <= c <= '\U{200A}') || c == '\U{2028}' ||
    c == '\U{2029}' || c == '\U{202F}' || c == '\U{205F}' || c == '\U{3000}'
  }

  /** A non-empty string without white space: what `strings.Fields` yields. */
  predicate IsToken(w: string) {
    w != [] && forall i :: 0 <= i < |w| ==> !IsSpace(w[i])
  }

  predicate AllTokens(ws: seq<string>) {
    forall i :: 0 <= i < |ws| ==> IsToken(ws[i])
  }

  predicate AllSpace(s: string) {
    forall i :: 0 <= i < |s| ==> IsSpace(s[i])
  }

  function TrimLeft(s: string): (r: string)
    ensures |r| <= |s| && r == s[|s| - |r|..]
    ensures r != [] ==> !IsSpace(r[0])
    ensures AllSpace(s[..|s| - |r|])
  {
    if s != [] && IsSpace(s[0]) then TrimLeft(s[1..]) else s
  }

  function TrimRight(s: string): (r: string)
    ensures |r| <= |s| && r == s[..|r|]
    ensures r != [] ==> !IsSpace(r[|r| - 1])
  {
    if s != [] && IsSpace(s[|s| - 1]) then TrimRight(s[..|s| - 1]) else s
  }

  /** strings.TrimSpace: drops leading and trailing white space. */
  function TrimSpace(s: string): string {
    TrimRight(TrimLeft(s))
  }

  /** TrimSpace keeps the first non-space character of its argument, if any. */
  lemma TrimSpaceHead(s: string)
    ensures TrimSpace(s) != [] <==> TrimLeft(s) != []
    ensures TrimSpace(s) != [] ==> TrimSpace(s)[0] == TrimLeft(s)[0]
  {
    var l := TrimLeft(s);
    if l != [] {
      TrimRightKeepsHead(l);
    }
  }

  /** Leading white space does not change TrimLeft. */
  lemma {:induction false} TrimLeftSpaces(a: string, t: string)
    requires AllSpace(a)
    ensures TrimLeft(a + t) == TrimLeft(t)
    decreases |a|
  {
    if a != [] {
      assert (a + t)[1..] == a[1..] + t;
      TrimLeftSpaces(a[1..], t);
    } else {
      assert a + t == t;
    }
  }

  lemma TrimRightKeepsHead(s: string)
    requires s != [] && !IsSpace(s[0])
    ensures TrimRight(s) != [] && TrimRight(s)[0] == s[0]
    decreases |s|
  {
    if IsSpace(s[|s| - 1]) {
      TrimRightKeepsHead(s[..|s| - 1]);
    }
  }

  /** A string starting with a non-space character is its own TrimLeft. */
  lemma TrimLeftOfNonSpace(s: string)
    requires s != [] && !IsSpace(s[0])
    ensures TrimLeft(s) == s
  {
  }

  /** Length of the longest prefix without white space. */
  function WordLen(s: string): (n: nat)
    ensures n <= |s|
    ensures forall i :: 0 <= i < n ==> !IsSpace(s[i])
    ensures n < |s| ==> IsSpace(s[n])
  {
    if s == [] || IsSpace(s[0]) then 0 else 1 + WordLen(s[1..])
  }

  /** strings.Fields: the maximal runs of non-space characters, in order. */
  function Fields(s: string): (r: seq<string>)
    ensures AllTokens(r)
    decreases |s|
  {
    if s == [] then []
    else if IsSpace(s[0]) then Fields(s[1..])
    else
      var n := WordLen(s);
      [s[..n]] + Fields(s[n..])
  }

  /** A character absent from `s` is absent from each of its fields. */
  lemma {:induction false} FieldsAvoid(s: string, c: char)
    requires c !in s
    ensures forall i :: 0 <= i < |Fields(s)| ==> c !in Fields(s)[i]
    decreases |s|
  {
    if s != [] {
      if IsSpace(s[0]) {
        FieldsAvoid(s[1..], c);
      } else {
        var n := WordLen(s);
        assert c !in s[n..];
        FieldsAvoid(s[n..], c);
      }
    }
  }

  /** Text without fields is all white space. */
  lemma {:induction false} FieldsEmpty(s: string)
    requires Fields(s) == []
    ensures AllSpace(s)
    decreases |s|
  {
    if s != [] {
      FieldsEmpty(s[1..]);
    }
  }

  lemma FieldsOfSpace(s: string)
    requires AllSpace(s)
    ensures Fields(s) == []
    decreases |s|
  {
    if s != [] {
      FieldsOfSpace(s[1..]);
    }
  }

  /** A token followed by nothing or by white space is the first field. */
  lemma FieldsTokenThen(w: string, t: string)
    requires IsToken(w)
    requires t == [] || IsSpace(t[0])
    ensures Fields(w + t) == [w] + Fields(t)
  {
    WordLenOfTokenThen(w, t);
    assert (w + t)[..|w|] == w;
    assert (w + t)[|w|..] == t;
  }

  /** A token, a space, then more text: the token is the first field. */
  lemma FieldsAfterSeparator(w: string, rest: string)
    requires IsToken(w)
    ensures Fields(w + (" " + rest)) == [w] + Fields(rest)
  {
    FieldsTokenThen(w, " " + rest);
    assert (" " + rest)[1..] == rest;
  }

  lemma {:induction false} WordLenOfTokenThen(w: string, t: string)
    requires forall i :: 0 <= i < |w| ==> !IsSpace(w[i])
    requires t == [] || IsSpace(t[0])
    ensures WordLen(w + t) == |w|
    decreases |w|
  {
    if w != [] {
      assert (w + t)[1..] == w[1..] + t;
      assert (w + t)[0] == w[0];
      assert forall i :: 0 <= i < |w[1..]| ==> w[1..][i] == w[i + 1];
      WordLenOfTokenThen(w[1..], t);
    } else {
      assert w + t == t;
    }
  }

  /** Joining tokens with single spaces, plus any trailing white space, splits
      back into the same tokens. */
  lemma {:induction false} FieldsOfJoin(ws: seq<string>, t: string)
    requires AllTokens(ws)
    requires AllSpace(t)
    ensures Fields(Join(ws, " ") + t) == ws
    decreases |ws|
  {
    if |ws| <= 1 {
      FieldsOfShortJoin(ws, t);
    } else {
      var rest := Join(ws[1..], " ") + t;
      AllTokensTail(ws);
      FieldsOfJoin(ws[1..], t);
      FieldsAfterSeparator(ws[0], rest);
      JoinHead(ws, t);
    }
  }

  lemma FieldsOfShortJoin(ws: seq<string>, t: string)
    requires |ws| <= 1 && AllTokens(ws) && AllSpace(t)
    ensures Fields(Join(ws, " ") + t) == ws
  {
    FieldsOfSpace(t);
    if ws == [] {
      assert Join(ws, " ") + t == t;
    } else {
      assert Join(ws, " ") == ws[0];
      FieldsTokenThen(ws[0], t);
    }
  }

  lemma AllTokensTail(ws: seq<string>)
    requires AllTokens(ws) && ws != []
    ensures AllTokens(ws[1..])
  {
    forall i | 0 <= i < |ws[1..]| ensures IsToken(ws[1..][i]) {
      assert ws[1..][i] == ws[i + 1];
    }
  }

  /** Join of two or more parts: the first, a space, then the join of the rest. */
  lemma JoinHead(ws: seq<string>, t: string)
    requires |ws| >= 2
    ensures Join(ws, " ") + t == ws[0] + (" " + (Join(ws[1..], " ") + t))
    ensures ws == [ws[0]] + ws[1..]
  {
    var j := Join(ws[1..], " ");
    assert Join(ws, " ") == ws[0] + " " + j;
    assert ws[0] + " " + j + t == ws[0] + (" " + (j + t));
  }

  // ---------------------------------------------------------------------
  // Split, Join, prefixes and suffixes
  // ---------------------------------------------------------------------

  function Count(s: string, c: char): nat {
    if s == [] then 0 else (if s[0] == c then 1 else 0) + Count(s[1..], c)
  }

  /** strings.Split with a one-character separator: the pieces between the
      separators, so there is always one more piece than separators. */
  function Split(s: string, sep: char): (r: seq<string>)
    ensures |r| == Count(s, sep) + 1
    ensures sep in s ==> |r| >= 2
    ensures forall i :: 0 <= i < |r| ==> sep !in r[i]
  {
    if s == [] then [""]
    else
      var rest := Split(s[1..], sep);
      if s[0] == sep then [""] + rest
      else [[s[0]] + rest[0]] + rest[1..]
  }

  lemma CountPositive(s: string, c: char)
    requires c in s
    ensures Count(s, c) >= 1
  {
    if s[0] != c {
      CountPositive(s[1..], c);
    }
  }

  /** strings.Join. */
  function Join(parts: seq<string>, sep: string): string {
    if parts == [] then ""
    else if |parts| == 1 then parts[0]
    else parts[0] + sep + Join(parts[1..], sep)
  }

  /** Joining a head onto a non-empty rest puts one separator between. */
  lemma JoinCons(x: string, rest: seq<string>, sep: string)
    requires rest != []
    ensures Join([x] + rest, sep) == x + sep + Join(rest, sep)
  {
    assert ([x] + rest)[1..] == rest;
  }

  /** Joining a non-empty list with one more part at the end. */
  lemma {:induction false} JoinSnoc(parts: seq<string>, x: string, sep: string)
    requires parts != []
    ensures Join(parts + [x], sep) == Join(parts, sep) + sep + x
    decreases |parts|
  {
    if |parts| == 1 {
      assert (parts + [x])[1..] == [x];
    } else {
      JoinSnoc(parts[1..], x, sep);
      assert (parts + [x])[1..] == parts[1..] + [x];
    }
  }

  /** A character in neither the parts nor the separator is not in the join. */
  lemma {:induction false} JoinAvoids(parts: seq<string>, sep: string, c: char)
    requires forall i :: 0 <= i < |parts| ==> c !in parts[i]
    requires c !in sep
    ensures c !in Join(parts, sep)
    decreases |parts|
  {
    if |parts| > 1 {
      JoinAvoids(parts[1..], sep, c);
    }
  }

  /** Splitting and re-joining with the same separator gives back the input. */
  lemma {:induction false} JoinSplit(s: string, sep: char)
    ensures Join(Split(s, sep), [sep]) == s
  {
    if s != [] {
      JoinSplit(s[1..], sep);
      var rest := Split(s[1..], sep);
      if s[0] == sep {
        assert Split(s, sep) == [""] + rest;
        assert s == [sep] + s[1..];
      } else {
        var r := Split(s, sep);
        assert r == [[s[0]] + rest[0]] + rest[1..];
        if |rest| == 1 {
          assert s == [s[0]] + rest[0];
        } else {
          assert Join(r, [sep]) == [s[0]] + rest[0] + [sep] + Join(rest[1..], [sep]);
          assert s == [s[0]] + s[1..];
        }
      }
    }
  }

  /** Splitting at a first separator. */
  lemma {:induction false} SplitAfterPiece(a: string, sep: char, b: string)
    requires sep !in a
    ensures Split(a + [sep] + b, sep) == [a] + Split(b, sep)
    decreases |a|
  {
    if a == [] {
      assert a + [sep] + b == [sep] + b;
      assert ([sep] + b)[1..] == b;
    } else {
      assert (a + [sep] + b)[1..] == a[1..] + [sep] + b;
      SplitAfterPiece(a[1..], sep, b);
      assert [a[0]] + a[1..] == a;
    }
  }

  /** Joining pieces that hold no separator and splitting again gives back
      the pieces. */
  lemma {:induction false} SplitJoin(parts: seq<string>, sep: char)
    requires parts != []
    requires forall i :: 0 <= i < |parts| ==> sep !in parts[i]
    ensures Split(Join(parts, [sep]), sep) == parts
    decreases |parts|
  {
    if |parts| == 1 {
      SplitNoSeparator(parts[0], sep);
    } else {
      SplitJoin(parts[1..], sep);
      assert Join(parts, [sep]) == parts[0] + [sep] + Join(parts[1..], [sep]);
      SplitAfterPiece(parts[0], sep, Join(parts[1..], [sep]));
      assert parts == [parts[0]] + parts[1..];
    }
  }

  /** A string without the separator splits into itself. */
  lemma {:induction false} SplitNoSeparator(s: string, sep: char)
    requires sep !in s
    ensures Split(s, sep) == [s]
  {
    if s != [] {
      SplitNoSeparator(s[1..], sep);
      assert [s[0]] + s[1..] == s;
    }
  }

  /** strings.IndexByte: the index of the first occurrence of `c`, or -1. */
  function Index(s: string, c: char): (i: int)
    ensures -1 <= i < |s|
    ensures i >= 0 ==> s[i] == c && c !in s[..i]
    ensures i == -1 ==> c !in s
  {
    if s == [] then -1
    else if s[0] == c then 0
    else
      var j := Index(s[1..], c);
      if j == -1 then -1
      else
        assert s[..j + 1] == [s[0]] + s[1..][..j];
        j + 1
  }

  /** The first piece of a split is the text before the first separator, and
      the other pieces are the split of the text after it. */
  lemma SplitAtFirst(s: string, sep: char)
    ensures Index(s, sep) == -1 ==> Split(s, sep) == [s]
    ensures Index(s, sep) >= 0 ==>
      Split(s, sep) == [s[..Index(s, sep)]] + Split(s[Index(s, sep) + 1..], sep)
  {
    var i := Index(s, sep);
    if i == -1 {
      SplitNoSeparator(s, sep);
    } else {
      assert s == s[..i] + [sep] + s[i + 1..];
      SplitAfterPiece(s[..i], sep, s[i + 1..]);
    }
  }

  function HasPrefix(s: string, p: string): bool {
    p <= s
  }

  function HasSuffix(s: string, p: string): bool {
    |p| <= |s| && s[|s| - |p|..] == p
  }

  /** strings.TrimSuffix. */
  function TrimSuffix(s: string, p: string): (r: string)
    ensures HasSuffix(s, p) ==> r + p == s
    ensures !HasSuffix(s, p) ==> r == s
  {
    if HasSuffix(s, p) then s[..|s| - |p|] else s
  }

  /** strings.Replace(s, old, "", 1) with a one-character `old`: drops the
      first occurrence. */
  function RemoveFirst(s: string, c: char): (r: string)
    ensures c !in s ==> r == s
    ensures c in s ==> |r| == |s| - 1
  {
    if s == [] then s
    else if s[0] == c then s[1..]
    else [s[0]] + RemoveFirst(s[1..], c)
  }

  /** Dropping the first `c` when it sits at index `i`. */
  lemma {:induction false} RemoveFirstAt(s: string, c: char, i: nat)
    requires i < |s| && s[i] == c && c !in s[..i]
    ensures RemoveFirst(s, c) == s[..i] + s[i + 1..]
  {
    if i > 0 {
      assert s[1..][..i - 1] == s[1..i];
      RemoveFirstAt(s[1..], c, i - 1);
    }
  }

  /** Index of the last occurrence of `c`, or -1. */
  function LastIndex(s: string, c: char): (i: int)
    ensures -1 <= i < |s|
    ensures i >= 0 ==> s[i] == c && c !in s[i + 1..]
    ensures i == -1 ==> c !in s
  {
    if s == [] then -1
    else if s[|s| - 1] == c then |s| - 1
    else
      var init := s[..|s| - 1];
      var i := LastIndex(init, c);
      assert s == init + [s[|s| - 1]];
      assert i >= 0 ==> s[i + 1..] == init[i + 1..] + [s[|s| - 1]];
      i
  }

  /** The last `c` of `a + [c] + b`, when `b` holds none, is the one between. */
  lemma {:induction false} LastIndexAt(a: string, c: char, b: string)
    requires c !in b
    ensures LastIndex(a + [c] + b, c) == |a|
    decreases |b|
  {
    var s := a + [c] + b;
    if b != [] {
      assert s[..|s| - 1] == a + [c] + b[..|b| - 1];
      assert s[|s| - 1] == b[|b| - 1];
      LastIndexAt(a, c, b[..|b| - 1]);
    }
  }

  /** The last element of strings.Split(s, sep). */
  lemma {:induction false} LastPiece(s: string, sep: char)
    ensures Split(s, sep)[|Split(s, sep)| - 1] == s[LastIndex(s, sep) + 1..]
    decreases |s|
  {
    var i := LastIndex(s, sep);
    if i == -1 {
      SplitNoSeparator(s, sep);
      assert s[0..] == s;
    } else {
      var a := s[..i];
      var b := s[i + 1..];
      assert s == a + [sep] + b;
      LastPieceSplit(a, sep, b);
    }
  }

  lemma {:induction false} LastPieceSplit(a: string, sep: char, b: string)
    requires sep !in b
    ensures var r := Split(a + [sep] + b, sep); r[|r| - 1] == b
    decreases |a|
  {
    if a == [] {
      assert a + [sep] + b == [sep] + b;
      assert ([sep] + b)[1..] == b;
      SplitNoSeparator(b, sep);
    } else {
      assert (a + [sep] + b)[1..] == a[1..] + [sep] + b;
      LastPieceSplit(a[1..], sep, b);
      assert sep in a[1..] + [sep] + b;
      CountPositive(a[1..] + [sep] + b, sep);
    }
  }

  // ---------------------------------------------------------------------
  // Byte-wise ordering and sort.Strings
  // ---------------------------------------------------------------------

  /** Go's `<` on strings: lexicographic on code points (for UTF-8 text this is
      the byte order Go uses). */
  predicate Less(a: string, b: string) {
    if a == [] then b != []
    else if b == [] then false
    else if a[0] == b[0] then Less(a[1..], b[1..])
    else a[0] < b[0]
  }

  lemma {:induction false} LessIrreflexive(a: string)
    ensures !Less(a, a)
  {
    if a != [] {
      LessIrreflexive(a[1..]);
    }
  }

  lemma {:induction false} LessTransitive(a: string, b: string, c: string)
    requires Less(a, b) && Less(b, c)
    ensures Less(a, c)
    decreases |a|
  {
    if a != [] && b != [] && c != [] && a[0] == b[0] && b[0] == c[0] {
      LessTransitive(a[1..], b[1..], c[1..]);
    }
  }

  /** Any two strings are equal or ordered one way or the other. */
  lemma {:induction false} LessTrichotomy(a: string, b: string)
    ensures a == b || Less(a, b) || Less(b, a)
    decreases |a|
  {
    if a != [] && b != [] && a[0] == b[0] {
      LessTrichotomy(a[1..], b[1..]);
      assert a[1..] == b[1..] ==> a == b by {
        assert a == [a[0]] + a[1..] && b == [b[0]] + b[1..];
      }
    }
  }

  lemma {:induction false} LessAsymmetric(a: string, b: string)
    requires Less(a, b)
    ensures !Less(b, a)
    decreases |a|
  {
    if a != [] && b != [] && a[0] == b[0] {
      LessAsymmetric(a[1..], b[1..]);
    }
  }

  /** `!Less(y, x)` reads "x <= y"; it is transitive. */
  lemma LeqTransitive(a: string, b: string, c: string)
    requires !Less(b, a) && !Less(c, b)
    ensures !Less(c, a)
  {
    LessTrichotomy(a, b);
    LessTrichotomy(b, c);
    if a != b && b != c {
      LessTransitive(a, b, c);
      LessAsymmetric(a, c);
    }
  }

  /** Non-decreasing order, as sort.Strings leaves a slice. */
  predicate Sorted(s: seq<string>) {
    forall i, j :: 0 <= i < j < |s| ==> !Less(s[j], s[i])
  }

  /** Strictly increasing order: sorted and without repeats. */
  predicate StrictlySorted(s: seq<string>) {
    forall i, j :: 0 <= i < j < |s| ==> Less(s[i], s[j])
  }

  predicate NoDuplicates(s: seq<string>) {
    forall i, j :: 0 <= i < j < |s| ==> s[i] != s[j]
  }

  function Insert(x: string, s: seq<string>): (r: seq<string>)
    requires Sorted(s)
    ensures Sorted(r)
    ensures multiset(r) == multiset(s) + multiset{x}
  {
    if s == [] then [x]
    else if Less(s[0], x) then
      var t := Insert(x, s[1..]);
      InsertAfterHead(x, s, t);
      [s[0]] + t
    else
      InsertBeforeHead(x, s);
      [x] + s
  }

  /** The head of a sorted sequence stays in front of the rest with a
      larger element inserted. */
  lemma InsertAfterHead(x: string, s: seq<string>, t: seq<string>)
    requires Sorted(s) && s != [] && Less(s[0], x)
    requires Sorted(t) && multiset(t) == multiset(s[1..]) + multiset{x}
    ensures Sorted([s[0]] + t)
    ensures multiset([s[0]] + t) == multiset(s) + multiset{x}
  {
    forall k | 0 <= k < |t|
      ensures !Less(t[k], s[0])
    {
      assert t[k] in multiset(t);
      if t[k] == x {
        LessAsymmetric(s[0], x);
      } else {
        assert t[k] in multiset(s[1..]);
        var m :| 0 <= m < |s[1..]| && s[1..][m] == t[k];
        assert s[1 + m] == t[k];
      }
    }
    assert s == [s[0]] + s[1..];
  }

  /** An element no greater than the head of a sorted sequence goes first. */
  lemma InsertBeforeHead(x: string, s: seq<string>)
    requires Sorted(s) && s != [] && !Less(s[0], x)
    ensures Sorted([x] + s)
  {
    forall k | 0 <= k < |s|
      ensures !Less(s[k], x)
    {
      if k > 0 {
        LeqTransitive(x, s[0], s[k]);
      }
    }
  }

  /** sort.Strings, modelled as insertion sort (the source calls the library
      sort; only its outcome, a sorted permutation, matters). */
  function SortStrings(s: seq<string>): (r: seq<string>)
    ensures Sorted(r)
    ensures multiset(r) == multiset(s)
  {
    if s == [] then []
    else
      assert s == [s[0]] + s[1..];
      Insert(s[0], SortStrings(s[1..]))
  }

  lemma SortedTail(s: seq<string>)
    requires Sorted(s) && s != []
    ensures Sorted(s[1..])
  {
    forall i, j | 0 <= i < j < |s| - 1
      ensures !Less(s[1..][j], s[1..][i])
    {
      assert s[1..][j] == s[j + 1] && s[1..][i] == s[i + 1];
    }
  }

  /** The first element of a sorted sequence is its least element. */
  lemma SortedSameHead(a: seq<string>, b: seq<string>)
    requires Sorted(a) && Sorted(b) && a != []
    requires multiset(a) == multiset(b)
    ensures b != [] && a[0] == b[0]
  {
    assert a[0] in multiset(b);
    var i :| 0 <= i < |b| && b[i] == a[0];
    assert b[0] in multiset(a);
    var j :| 0 <= j < |a| && a[j] == b[0];
    assert !Less(a[0], b[0]) by {
      if i > 0 {
        assert !Less(b[i], b[0]);
      } else {
        LessIrreflexive(a[0]);
      }
    }
    assert !Less(b[0], a[0]) by {
      if j > 0 {
        assert !Less(a[j], a[0]);
      } else {
        LessIrreflexive(b[0]);
      }
    }
    LessTrichotomy(a[0], b[0]);
  }

  lemma MultisetTail(s: seq<string>)
    requires s != []
    ensures multiset(s[1..]) == multiset(s) - multiset{s[0]}
  {
    assert s == [s[0]] + s[1..];
  }

  /** Two sorted sequences holding the same strings are the same sequence, so
      the outcome of sorting does not depend on the order it started from. */
  lemma {:induction false} SortedUnique(a: seq<string>, b: seq<string>)
    requires Sorted(a) && Sorted(b)
    requires multiset(a) == multiset(b)
    ensures a == b
    decreases |a|
  {
    if a == [] {
      assert |b| == |multiset(b)| == 0;
    } else {
      SortedSameHead(a, b);
      MultisetTail(a);
      MultisetTail(b);
      SortedTail(a);
      SortedTail(b);
      SortedUnique(a[1..], b[1..]);
      assert a == [a[0]] + a[1..] && b == [b[0]] + b[1..];
    }
  }

  /** A sorted sequence without repeats is strictly sorted. */
  lemma SortedNoDuplicatesStrict(s: seq<string>)
    requires Sorted(s) && NoDuplicates(s)
    ensures StrictlySorted(s)
  {
    forall i, j | 0 <= i < j < |s|
      ensures Less(s[i], s[j])
    {
      LessTrichotomy(s[i], s[j]);
    }
  }

  /** Taking out the element at `j` of a sequence without repeats. */
  lemma RemoveAt(b: seq<string>, j: nat)
    requires NoDuplicates(b) && j < |b|
    ensures var b' := b[..j] + b[j + 1..];
      NoDuplicates(b') &&
      (forall y :: y in b' <==> y in b && y != b[j]) &&
      multiset(b) == multiset(b') + multiset{b[j]}
  {
    var b' := b[..j] + b[j + 1..];
    forall i, k | 0 <= i < k < |b'| ensures b'[i] != b'[k] {
      var ii := if i < j then i else i + 1;
      var kk := if k < j then k else k + 1;
      assert b'[i] == b[ii] && b'[k] == b[kk] && ii < kk;
    }
    forall y ensures y in b' <==> y in b && y != b[j] {
      if y in b' {
        var k :| 0 <= k < |b'| && b'[k] == y;
        if k < j {
          assert b'[k] == b[k];
        } else {
          assert b'[k] == b[k + 1];
        }
      }
      if y in b && y != b[j] {
        var k :| 0 <= k < |b| && b[k] == y;
        if k < j {
          assert b'[k] == y;
        } else {
          assert b'[k - 1] == y;
        }
      }
    }
    assert b == b[..j] + [b[j]] + b[j + 1..];
  }

  lemma HeadIsMember(s: seq<string>)
    ensures s != [] ==> s[0] in s
  {
  }

  /** Without repeats, a sequence holds its elements once each, so two such
      sequences with the same elements are permutations of each other. */
  lemma {:induction false} NoDuplicatesMultiset(a: seq<string>, b: seq<string>)
    requires NoDuplicates(a) && NoDuplicates(b)
    requires forall x :: x in a <==> x in b
    ensures multiset(a) == multiset(b)
    decreases |a|
  {
    if a == [] {
      HeadIsMember(b);
    } else {
      var x := a[|a| - 1];
      assert x in b;
      var j :| 0 <= j < |b| && b[j] == x;
      RemoveAt(a, |a| - 1);
      RemoveAt(b, j);
      var a' := a[..|a| - 1] + a[|a|..];
      var b' := b[..j] + b[j + 1..];
      assert forall y :: y in a' <==> y in b' by {
        forall y ensures y in a' <==> y in b' {
          assert y in a' <==> y in a && y != x;
          assert y in b' <==> y in b && y != x;
        }
      }
      NoDuplicatesMultiset(a', b');
    }
  }

  // ---------------------------------------------------------------------
  // Removing repeats and filtering
  // ---------------------------------------------------------------------

  /** The distinct elements in order of first occurrence. */
  function Dedup(s: seq<string>): (r: seq<string>)
    ensures NoDuplicates(r)
    ensures forall x :: x in r <==> x in s
  {
    if s == [] then []
    else
      var r := Dedup(s[..|s| - 1]);
      assert forall x :: x in s <==> x in s[..|s| - 1] || x == s[|s| - 1] by {
        assert s == s[..|s| - 1] + [s[|s| - 1]];
      }
      if s[|s| - 1] in r then r else r + [s[|s| - 1]]
  }

  /** The elements of `s` that are not in `drop`, in order. */
  function Without(s: seq<string>, drop: seq<string>): (r: seq<string>)
    ensures forall x :: x in r <==> x in s && x !in drop
    ensures |r| <= |s|
  {
    if s == [] then []
    else if s[0] in drop then Without(s[1..], drop)
    else
      assert s == [s[0]] + s[1..];
      [s[0]] + Without(s[1..], drop)
  }

  /** Filtering distributes over appending one element. */
  lemma {:induction false} WithoutAppend(s: seq<string>, x: string, drop: seq<string>)
    ensures Without(s + [x], drop) ==
      Without(s, drop) + (if x in drop then [] else [x])
  {
    if s == [] {
      assert s + [x] == [x];
    } else {
      assert (s + [x])[0] == s[0];
      assert (s + [x])[1..] == s[1..] + [x];
      WithoutAppend(s[1..], x, drop);
    }
  }

  /** Filtering out strings the sequence does not hold changes nothing. */
  lemma {:induction false} WithoutAbsent(s: seq<string>, drop: seq<string>)
    requires forall x :: x in drop ==> x !in s
    ensures Without(s, drop) == s
  {
    if s != [] {
      assert s[0] in s;
      WithoutAbsent(s[1..], drop);
      assert s == [s[0]] + s[1..];
    }
  }

  /** Dropping one string after dropping others is dropping all of them. */
  lemma {:induction false} WithoutTwice(s: seq<string>, drop: seq<string>, h: string)
    ensures Without(Without(s, drop), [h]) == Without(s, drop + [h])
  {
    if s != [] {
      WithoutTwice(s[1..], drop, h);
    }
  }

  lemma {:induction false} WithoutNothing(s: seq<string>)
    ensures Without(s, []) == s
  {
    if s != [] {
      WithoutNothing(s[1..]);
    }
  }

  // ---------------------------------------------------------------------
  // strconv.Itoa / fmt %d
  // ---------------------------------------------------------------------

  function DigitChar(d: nat): (c: char)
    requires d < 10
    ensures '0' <= c <= '9'
    ensures c as int - '0' as int == d
  {
    (d + '0' as int) as char
  }

  function NatToDecimal(n: nat): (r: string)
    ensures r != []
    ensures forall i :: 0 <= i < |r| ==> '0' <= r[i] <= '9'
    ensures (|r| == 1) == (n < 10)
  {
    if n < 10 then [DigitChar(n)] else NatToDecimal(n / 10) + [DigitChar(n % 10)]
  }

  /** Decimal text of an integer, as `%d` prints it. */
  function IntToDecimal(i: int): (r: string)
    ensures r != []
    ensures (r[0] == '-') == (i < 0)
  {
    if i < 0 then "-" + NatToDecimal(-i) else NatToDecimal(i)
  }

  /** Different numbers print differently. */
  lemma {:induction false} NatToDecimalInjective(m: nat, n: nat)
    requires NatToDecimal(m) == NatToDecimal(n)
    ensures m == n
    decreases m
  {
    var a, b := NatToDecimal(m), NatToDecimal(n);
    if m < 10 {
      assert DigitChar(m) == a[0] == b[0] == DigitChar(n);
    } else {
      assert DigitChar(m % 10) == a[|a| - 1] == b[|b| - 1] == DigitChar(n % 10);
      assert a[..|a| - 1] == NatToDecimal(m / 10);
      assert b[..|b| - 1] == NatToDecimal(n / 10);
      NatToDecimalInjective(m / 10, n / 10);
    }
  }

  lemma IntToDecimalInjective(m: int, n: int)
    requires IntToDecimal(m) == IntToDecimal(n)
    ensures m == n
  {
    if m < 0 {
      assert IntToDecimal(m)[1..] == NatToDecimal(-m);
      assert IntToDecimal(n)[1..] == NatToDecimal(-n);
      NatToDecimalInjective(-m, -n);
    } else {
      NatToDecimalInjective(m, n);
    }
  }
}
