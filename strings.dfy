/** Text primitives the flattener relies on: Python's `str.strip()`,
    `str.lower()` on the two header labels, `str.split(',')`, the
    code-point order Python uses to compare strings, and
    first-index lookup in a sequence of labels. */
module Strings {
  import opened Wrappers

  /** The characters for which Python's `str.isspace()` holds; these are the
      characters `str.strip()` removes from both ends. */
  predicate IsSpace(c: char) {
    || c == ' '
    || ('\t' <= c <= '\r')
    || ('\U{1c}' <= c <= '\U{1f}')
    || c == '\U{85}' || c == '\U{a0}' || c == '\U{1680}'
    || ('\U{2000}' <= c <= '\U{200a}')
    || c == '\U{2028}' || c == '\U{2029}' || c == '\U{202f}'
    || c == '\U{205f}' || c == '\U{3000}'
  }

  predicate AllSpace(s: string) {
    forall j :: 0 <= j < |s| ==> IsSpace(s[j])
  }

  /** The number of white-space characters `s` starts with. */
  function LeadingSpaces(s: string): (k: nat)
    ensures k <= |s|
    ensures forall j :: 0 <= j < k ==> IsSpace(s[j])
    ensures k < |s| ==> !IsSpace(s[k])
  {
    if |s| > 0 && IsSpace(s[0]) then 1 + LeadingSpaces(s[1..]) else 0
  }

  /** The number of white-space characters `s` ends with. */
  function TrailingSpaces(s: string): (k: nat)
    ensures k <= |s|
    ensures forall j :: |s| - k <= j < |s| ==> IsSpace(s[j])
    ensures k < |s| ==> !IsSpace(s[|s| - 1 - k])
  {
    if |s| > 0 && IsSpace(s[|s| - 1]) then 1 + TrailingSpaces(s[..|s| - 1]) else 0
  }

  /** Python's `s.strip()`: the leading white space is dropped, then the
      trailing white space of what is left. */
  function Trim(s: string): (r: string)
    ensures |r| <= |s|
  {
    var rest := s[LeadingSpaces(s)..];
    rest[..|rest| - TrailingSpaces(rest)]
  }

  /** Trimming gives the empty string exactly when `s` is all white space,
      and otherwise the infix of `s` from its first to its last character
      that is not white space: everything removed is white space. */
  lemma TrimSpec(s: string)
    ensures LeadingSpaces(s) + |Trim(s)| <= |s|
    ensures Trim(s) == [] <==> AllSpace(s)
    ensures Trim(s) != [] ==> !IsSpace(Trim(s)[0]) && !IsSpace(Trim(s)[|Trim(s)| - 1])
    ensures forall j :: 0 <= j < |Trim(s)| ==> Trim(s)[j] == s[LeadingSpaces(s) + j]
    ensures forall j :: 0 <= j < |s| && (j < LeadingSpaces(s) || j >= LeadingSpaces(s) + |Trim(s)|)
                        ==> IsSpace(s[j])
  {
    TrimEnds(s);
    TrimKeeps(s);
    TrimDrops(s);
  }

  /** `Trim(s)` is empty only for all-space `s`, and otherwise starts and
      ends with a character that is not white space. */
  lemma TrimEnds(s: string)
    ensures Trim(s) == [] <==> AllSpace(s)
    ensures Trim(s) != [] ==> !IsSpace(Trim(s)[0]) && !IsSpace(Trim(s)[|Trim(s)| - 1])
  {
    var a := LeadingSpaces(s);
    var rest := s[a..];
    var t := TrailingSpaces(rest);
    var r := Trim(s);
    assert r == rest[..|rest| - t];
    if a < |s| {
      assert rest[0] == s[a];
      TrailingBound(rest, 0);
      assert r[0] == s[a];
      assert r[|r| - 1] == rest[|rest| - 1 - t];
      assert !IsSpace(s[a]);
    }
  }

  /** `Trim(s)` is the text of `s` starting at its first non-space
      character. */
  lemma TrimKeeps(s: string)
    ensures LeadingSpaces(s) + |Trim(s)| <= |s|
    ensures forall j :: 0 <= j < |Trim(s)| ==> Trim(s)[j] == s[LeadingSpaces(s) + j]
  {
    var a := LeadingSpaces(s);
    var k := |s[a..]| - TrailingSpaces(s[a..]);
    assert forall j :: 0 <= j < |s[a..][..k]| ==> s[a..][..k][j] == s[a + j];
  }

  /** Every character `Trim` removes is white space. */
  lemma TrimDrops(s: string)
    ensures forall j :: 0 <= j < |s| && (j < LeadingSpaces(s) || j >= LeadingSpaces(s) + |Trim(s)|)
                        ==> IsSpace(s[j])
  {
    var a := LeadingSpaces(s);
    var rest := s[a..];
    var r := Trim(s);
    assert r == rest[..|rest| - TrailingSpaces(rest)];
    forall j | 0 <= j < |s| && j >= a + |r|
      ensures IsSpace(s[j])
    {
      assert s[j] == rest[j - a];
    }
  }

  /** A character that is not white space comes before the trailing white
      space. */
  lemma TrailingBound(s: string, j: nat)
    requires j < |s| && !IsSpace(s[j])
    ensures j < |s| - TrailingSpaces(s)
  {
  }

  /** Trimming a trimmed string changes nothing. */
  lemma TrimIdempotent(s: string)
    ensures Trim(Trim(s)) == Trim(s)
  {
    var r := Trim(s);
    TrimSpec(s);
    if r != [] {
      assert LeadingSpaces(r) == 0 && TrailingSpaces(r) == 0;
      assert r[0..|r|] == r;
    }
  }

  /** ASCII lower-casing. For the header labels `name` and `item-rating` this
      agrees with Python's `str.lower()`: the only non-ASCII character Python
      lowers to an ASCII one is the Kelvin sign, whose image `k` occurs in
      neither label. */
  function LowerChar(c: char): (r: char)
    ensures 'A' <= c <= 'Z' ==> r as int == c as int + 32
    ensures !('A' <= c <= 'Z') ==> r == c
  {
    if 'A' <= c <= 'Z' then (c as int + 32) as char else c
  }

  function Lower(s: string): (r: string)
    ensures |r| == |s|
    ensures forall j :: 0 <= j < |s| ==> r[j] == LowerChar(s[j])
  {
    if s == [] then [] else [LowerChar(s[0])] + Lower(s[1..])
  }

  /** Python's `s.split(sep)` with an explicit one-character separator: the
      maximal separator-free pieces, so that there is always one more piece
      than there are separators. */
  function Split(s: string, sep: char): (r: seq<string>)
    ensures |r| >= 1
    ensures forall k :: 0 <= k < |r| ==> sep !in r[k]
    ensures |r| == Occurrences(s, sep) + 1
  {
    if s == [] then [""]
    else
      var rest := Split(s[1..], sep);
      if s[0] == sep then [""] + rest
      else [[s[0]] + rest[0]] + rest[1..]
  }

  function Occurrences(s: string, c: char): nat {
    if s == [] then 0 else (if s[0] == c then 1 else 0) + Occurrences(s[1..], c)
  }

  /** Python's `sep.join(parts)`. */
  function Join(parts: seq<string>, sep: char): string
    requires |parts| >= 1
  {
    if |parts| == 1 then parts[0] else parts[0] + [sep] + Join(parts[1..], sep)
  }

  /** Joining the pieces of a split gives back the original string. */
  lemma {:induction false} JoinSplit(s: string, sep: char)
    ensures Join(Split(s, sep), sep) == s
  {
    if s != [] {
      var rest := Split(s[1..], sep);
      JoinSplit(s[1..], sep);
      if s[0] == sep {
        assert Split(s, sep)[1..] == rest;
      } else {
        var r := Split(s, sep);
        if |rest| == 1 {
          assert r == [[s[0]] + rest[0]];
        } else {
          assert r[1..] == rest[1..];
          assert Join(rest, sep) == rest[0] + [sep] + Join(rest[1..], sep);
        }
      }
    }
  }

  /** Splitting a join of separator-free pieces gives back the pieces. */
  lemma {:induction false} SplitJoin(parts: seq<string>, sep: char)
    requires |parts| >= 1
    requires forall k :: 0 <= k < |parts| ==> sep !in parts[k]
    ensures Split(Join(parts, sep), sep) == parts
  {
    if |parts| == 1 {
      SplitFree(parts[0], sep, []);
      assert parts[0] + [] == parts[0];
    } else {
      var tail := Join(parts[1..], sep);
      SplitJoin(parts[1..], sep);
      SplitFree(parts[0], sep, [sep] + tail);
      assert Join(parts, sep) == parts[0] + ([sep] + tail);
      assert ([sep] + tail)[1..] == tail;
      assert [parts[0]] + parts[1..] == parts;
    }
  }

  /** Splitting `w + t` where `w` holds no separator and `t` is empty or
      starts with one: the first piece is `w`, the rest is `t`'s split. */
  lemma {:induction false} SplitFree(w: string, sep: char, t: string)
    requires sep !in w
    requires t == [] || t[0] == sep
    ensures t == [] ==> Split(w + t, sep) == [w]
    ensures t != [] ==> Split(w + t, sep) == [w] + Split(t[1..], sep)
  {
    if w == [] {
      assert w + t == t;
    } else {
      SplitFree(w[1..], sep, t);
      assert (w + t)[1..] == w[1..] + t;
      assert [w[0]] + w[1..] == w;
    }
  }

  /** Python's `[p.strip() for p in parts if p.strip()]`. */
  function TrimmedPieces(parts: seq<string>): (r: seq<string>)
    ensures |r| <= |parts|
  {
    if parts == [] then []
    else
      var p := Trim(parts[0]);
      if p != "" then [p] + TrimmedPieces(parts[1..]) else TrimmedPieces(parts[1..])
  }

  /** The positions of the pieces the comprehension keeps. */
  ghost function KeptIndices(parts: seq<string>): set<nat> {
    set k: nat | k < |parts| && Trim(parts[k]) != ""
  }

  /** The comprehension keeps one piece per piece that is not blank once
      stripped, so `len(sub_ratings)` counts exactly those. */
  lemma {:induction false} TrimmedPiecesCount(parts: seq<string>)
    ensures |TrimmedPieces(parts)| == |KeptIndices(parts)|
  {
    if parts != [] {
      var rest := parts[1..];
      TrimmedPiecesCount(rest);
      ShiftCard(KeptIndices(rest));
      KeptIndicesCons(parts);
    }
  }

  /** The kept positions of a non-empty sequence: position 0 when its first
      piece is kept, and the kept positions of the rest, shifted by one. */
  lemma KeptIndicesCons(parts: seq<string>)
    requires parts != []
    ensures var head: set<int> := if Trim(parts[0]) != "" then {0} else {};
            && head !! Shift(KeptIndices(parts[1..]))
            && KeptIndices(parts) == head + Shift(KeptIndices(parts[1..]))
  {
    KeptIndicesCovered(parts);
    KeptIndicesWithin(parts);
  }

  lemma KeptIndicesCovered(parts: seq<string>)
    requires parts != []
    ensures forall k: nat :: k in KeptIndices(parts) && k > 0 ==> k in Shift(KeptIndices(parts[1..]))
  {
    var rest := parts[1..];
    forall k: nat | k in KeptIndices(parts) && k > 0
      ensures k in Shift(KeptIndices(rest))
    {
      assert parts[k] == rest[k - 1];
      assert (k - 1) in KeptIndices(rest);
    }
  }

  lemma KeptIndicesWithin(parts: seq<string>)
    requires parts != []
    ensures forall k :: k in Shift(KeptIndices(parts[1..])) ==> k > 0 && k in KeptIndices(parts)
  {
    var rest := parts[1..];
    forall k | k in Shift(KeptIndices(rest))
      ensures k > 0 && k in KeptIndices(parts)
    {
      var j :| j in KeptIndices(rest) && k == j + 1;
      assert parts[k] == rest[j];
    }
  }

  /** Every element of a set of naturals, plus one. */
  ghost function Shift(s: set<nat>): set<int> {
    set k | k in s :: k + 1
  }

  /** Shifting a set of naturals by one keeps its size. */
  lemma ShiftCard(s: set<nat>)
    ensures |Shift(s)| == |s|
    decreases s
  {
    if s == {} {
      assert forall y :: y in Shift(s) ==> y - 1 in s;
      assert Shift(s) == {};
    } else {
      var x :| x in s;
      var smaller := s - {x};
      ShiftCard(smaller);
      forall y | y in Shift(s) ensures y in Shift(smaller) + {x + 1} {
        var k :| k in s && y == k + 1;
        if k != x { assert k in smaller; }
      }
      forall y | y in Shift(smaller) + {x + 1} ensures y in Shift(s) {
        if y != x + 1 {
          var k :| k in smaller && y == k + 1;
          assert k in s;
        }
      }
      assert Shift(s) == Shift(smaller) + {x + 1};
      assert x + 1 !in Shift(smaller);
    }
  }

  /** Every piece kept is non-empty and already trimmed. */
  lemma {:induction false} TrimmedPiecesClean(parts: seq<string>)
    ensures forall x :: x in TrimmedPieces(parts) ==> x != "" && Trim(x) == x
  {
    if parts != [] {
      var p := Trim(parts[0]);
      var rest := TrimmedPieces(parts[1..]);
      TrimmedPiecesClean(parts[1..]);
      TrimIdempotent(parts[0]);
      forall x | x in TrimmedPieces(parts) ensures x != "" && Trim(x) == x {
        if p != "" {
          assert TrimmedPieces(parts) == [p] + rest;
          if x != p { assert x in rest; }
        } else {
          assert TrimmedPieces(parts) == rest;
        }
      }
    }
  }

  /** Every non-blank part contributes its trimmed form, and nothing else
      is kept. */
  lemma {:induction false} TrimmedPiecesExact(parts: seq<string>, x: string)
    ensures x in TrimmedPieces(parts) <==> exists k :: 0 <= k < |parts| && Trim(parts[k]) != "" && Trim(parts[k]) == x
  {
    if parts != [] {
      var rest := parts[1..];
      TrimmedPiecesExact(rest, x);
      if x in TrimmedPieces(parts) && !(Trim(parts[0]) != "" && Trim(parts[0]) == x) {
        var k :| 0 <= k < |rest| && Trim(rest[k]) != "" && Trim(rest[k]) == x;
        assert parts[k + 1] == rest[k];
      }
      if x !in TrimmedPieces(parts) {
        forall k | 0 <= k < |parts| ensures !(Trim(parts[k]) != "" && Trim(parts[k]) == x) {
          if k > 0 { assert parts[k] == rest[k - 1]; }
        }
      }
    }
  }

  /** No piece is kept exactly when every part is blank. */
  lemma {:induction false} NoPiecesIff(parts: seq<string>)
    ensures TrimmedPieces(parts) == [] <==> forall k :: 0 <= k < |parts| ==> AllSpace(parts[k])
  {
    if parts != [] {
      var rest := parts[1..];
      NoPiecesIff(rest);
      TrimSpec(parts[0]);
      assert forall k :: 1 <= k < |parts| ==> parts[k] == rest[k - 1];
    }
  }

  /** Strict lexicographic order by code point, as Python compares `str`. */
  predicate Less(a: string, b: string) {
    if a == [] then b != []
    else b != [] && (a[0] < b[0] || (a[0] == b[0] && Less(a[1..], b[1..])))
  }

  lemma {:induction false} LessIrreflexive(a: string)
    ensures !Less(a, a)
  {
    if a != [] { LessIrreflexive(a[1..]); }
  }

  lemma {:induction false} LessTransitive(a: string, b: string, c: string)
    requires Less(a, b) && Less(b, c)
    ensures Less(a, c)
  {
    if a != [] && a[0] == b[0] && b[0] == c[0] {
      LessTransitive(a[1..], b[1..], c[1..]);
    }
  }

  lemma {:induction false} LessTotal(a: string, b: string)
    ensures a == b || Less(a, b) || Less(b, a)
  {
    if a != [] && b != [] && a[0] == b[0] {
      LessTotal(a[1..], b[1..]);
      if a[1..] == b[1..] {
        assert a == [a[0]] + a[1..] && b == [b[0]] + b[1..];
      }
    }
  }

  /** Position of the first occurrence of `x` in `s`, if any. */
  function IndexOf(s: seq<string>, x: string): (r: Option<nat>)
    ensures r.Some? ==> r.value < |s| && s[r.value] == x
                        && forall j :: 0 <= j < r.value ==> s[j] != x
    ensures r.None? <==> x !in s
  {
    if s == [] then None
    else if s[0] == x then Some(0)
    else match IndexOf(s[1..], x)
      case None => None
      case Some(k) => Some(k + 1)
  }
}
