/** Models of the operations on Rust's `str` that the request parser and the
    cookie helpers rely on.  Strings are sequences of Unicode scalar values. */
module Strings {
  import opened Wrappers

  /** `char::is_whitespace`: the Unicode White_Space property. */
  const WhiteSpace: set<char> := {
    '\U{9}', '\U{A}', '\U{B}', '\U{C}', '\U{D}', '\U{20}', '\U{85}',
    '\U{A0}', '\U{1680}', '\U{2000}', '\U{2001}', '\U{2002}', '\U{2003}', '\U{2004}',
    '\U{2005}', '\U{2006}', '\U{2007}', '\U{2008}', '\U{2009}', '\U{200A}', '\U{2028}',
    '\U{2029}', '\U{202F}', '\U{205F}', '\U{3000}'
  }

  predicate IsWhitespace(c: char)
  {
    c in WhiteSpace
  }

  /** Visible ASCII characters are not whitespace. */
  lemma VisibleAsciiNotWhitespace(c: char)
    requires '!' <= c <= '~'
    ensures !IsWhitespace(c)
  {
  }

  /** A string of visible ASCII characters has no whitespace. */
  lemma VisibleAsciiNoWhitespace(s: string)
    requires forall i :: 0 <= i < |s| ==> '!' <= s[i] <= '~'
    ensures NoWhitespace(s)
  {
    forall i | 0 <= i < |s|
      ensures !IsWhitespace(s[i])
    {
      VisibleAsciiNotWhitespace(s[i]);
    }
  }

  predicate NoWhitespace(s: string)
  {
    forall i :: 0 <= i < |s| ==> !IsWhitespace(s[i])
  }

  /** `char::to_ascii_uppercase`: only 'a'..'z' change. */
  function UpperChar(c: char): (u: char)
    ensures 'a' <= c <= 'z' ==> u as int == c as int - 32
    ensures !('a' <= c <= 'z') ==> u == c
  {
    if 'a' <= c <= 'z' then (c as int - 32) as char else c
  }

  /** `str::to_ascii_uppercase`. */
  function ToAsciiUppercase(s: string): (r: string)
    ensures |r| == |s|
    ensures forall i :: 0 <= i < |s| ==> r[i] == UpperChar(s[i])
  {
    if s == [] then [] else [UpperChar(s[0])] + ToAsciiUppercase(s[1..])
  }

  lemma {:induction false} UppercaseIdempotent(s: string)
    ensures ToAsciiUppercase(ToAsciiUppercase(s)) == ToAsciiUppercase(s)
  {
    var u := ToAsciiUppercase(s);
    var uu := ToAsciiUppercase(u);
    forall i | 0 <= i < |s|
      ensures uu[i] == u[i]
    {
      assert !('a' <= u[i] <= 'z');
    }
  }

  /** A string without lower-case ASCII letters is its own upper-case form. */
  lemma UppercaseOfUpper(s: string)
    requires forall i :: 0 <= i < |s| ==> !('a' <= s[i] <= 'z')
    ensures ToAsciiUppercase(s) == s
  {
    var u := ToAsciiUppercase(s);
    assert forall i :: 0 <= i < |s| ==> u[i] == s[i];
  }

  /** Index of the first occurrence of `c`, or `|s|` when there is none. */
  function IndexOf(s: string, c: char): (i: nat)
    ensures i <= |s|
    ensures i < |s| ==> s[i] == c
    ensures forall j :: 0 <= j < i ==> s[j] != c
  {
    IndexFrom(s, c, 0)
  }

  /** The first `c` at or after position `k`, or `|s|`. */
  function IndexFrom(s: string, c: char, k: nat): (i: nat)
    requires k <= |s|
    ensures k <= i <= |s|
    ensures i < |s| ==> s[i] == c
    ensures forall j :: k <= j < i ==> s[j] != c
    decreases |s| - k
  {
    if k == |s| || s[k] == c then k else IndexFrom(s, c, k + 1)
  }

  /** Concatenation of `parts` with `sep` between neighbours (`join`). */
  function Join(parts: seq<string>, sep: string): string
  {
    if |parts| == 0 then [] else if |parts| == 1 then parts[0]
    else parts[0] + sep + Join(parts[1..], sep)
  }

  /** A character in neither the parts nor the separator is not in the join. */
  lemma {:induction false} JoinExcludes(parts: seq<string>, sep: string, c: char)
    requires forall k :: 0 <= k < |parts| ==> c !in parts[k]
    requires c !in sep
    ensures c !in Join(parts, sep)
  {
    if |parts| > 1 {
      JoinExcludes(parts[1..], sep, c);
    }
  }

  // ---------------------------------------------------------------------
  // str::lines

  /** Drops one trailing carriage return, as `lines` does for a line that
      ended with a line feed. */
  function StripCr(line: string): string
  {
    if |line| > 0 && line[|line| - 1] == '\r' then line[..|line| - 1] else line
  }

  /** `str::lines`: split after every '\n'; a line that ended with '\n'
      loses the '\n' and then one trailing '\r'; a final line without '\n'
      is kept as it is; the empty string has no lines. */
  function Lines(s: string): seq<string>
    decreases |s|
  {
    if s == [] then []
    else
      var i := IndexOf(s, '\n');
      if i == |s| then [s] else [StripCr(s[..i])] + Lines(s[i + 1..])
  }

  lemma {:induction false} LinesNoNewline(s: string)
    ensures forall k, j :: 0 <= k < |Lines(s)| && 0 <= j < |Lines(s)[k]| ==> Lines(s)[k][j] != '\n'
    decreases |s|
  {
    if s != [] {
      var i := IndexOf(s, '\n');
      if i < |s| {
        LinesNoNewline(s[i + 1..]);
      }
    }
  }

  lemma LinesEmptyIff(s: string)
    ensures Lines(s) == [] <==> s == []
  {
  }

  /** A line without '\n' followed by "\r\n" or "\n" contributes exactly
      one line. */
  lemma LinesCons(line: string, ending: string, rest: string)
    requires '\n' !in line
    requires ending == "\r\n" || (ending == "\n" && (line == [] || line[|line| - 1] != '\r'))
    ensures Lines(line + ending + rest) == [line] + Lines(rest)
  {
    var s := line + ending + rest;
    var i := |line| + |ending| - 1;
    assert s[i] == '\n';
    assert forall j :: 0 <= j < i ==> s[j] != '\n';
    assert IndexOf(s, '\n') == i;
    assert s[i + 1..] == rest;
    if ending == "\r\n" {
      assert s[..i] == line + ['\r'];
      assert StripCr(s[..i]) == line;
    } else {
      assert s[..i] == line;
    }
  }

  lemma LinesSingle(line: string)
    requires line != [] && '\n' !in line
    ensures Lines(line) == [line]
  {
    assert forall j :: 0 <= j < |line| ==> line[j] != '\n';
  }

  /** Concatenation regrouped. It only hands the solver a fact it knows, in
      the exact shape a long proof needs, which keeps those proofs cheap; the
      longer regroupings of the response writer serve the same purpose. */
  lemma Regroup<T>(a: seq<T>, b: seq<T>, c: seq<T>)
    ensures a + b + c == a + (b + c)
  {
  }

  /** Slices written with explicit and with implicit bounds agree. */
  lemma SliceBounds(s: string, i: nat)
    requires i <= |s|
    ensures s[0..i] == s[..i] && s[i..|s|] == s[i..]
  {
  }

  /** Lines each terminated by "\r\n", the way HTTP writes them. */
  function CrlfText(ls: seq<string>): string
  {
    if ls == [] then [] else ls[0] + "\r\n" + CrlfText(ls[1..])
  }

  /** `lines` takes "\r\n"-terminated lines apart again. */
  lemma {:induction false} LinesOfCrlf(ls: seq<string>, rest: string)
    requires forall k :: 0 <= k < |ls| ==> '\n' !in ls[k]
    ensures Lines(CrlfText(ls) + rest) == ls + Lines(rest)
  {
    if ls != [] {
      var tail := CrlfText(ls[1..]) + rest;
      calc {
        Lines(CrlfText(ls) + rest);
        { Regroup(ls[0] + "\r\n", CrlfText(ls[1..]), rest); }
        Lines(ls[0] + "\r\n" + tail);
        { LinesCons(ls[0], "\r\n", tail); }
        [ls[0]] + Lines(tail);
        { LinesOfCrlf(ls[1..], rest); }
        [ls[0]] + (ls[1..] + Lines(rest));
        { assert ls == [ls[0]] + ls[1..]; }
        ls + Lines(rest);
      }
    } else {
      assert CrlfText(ls) + rest == rest;
    }
  }

  /** A text without '\r' that does not end in '\n' is rebuilt by joining
      its lines with '\n'. */
  lemma {:induction false} JoinLines(b: string)
    requires '\r' !in b
    requires b == [] || b[|b| - 1] != '\n'
    ensures Join(Lines(b), "\n") == b
    decreases |b|
  {
    if b != [] {
      var i := IndexOf(b, '\n');
      if i < |b| {
        var rest := b[i + 1..];
        JoinLines(rest);
        LinesAt(b, i);
        JoinFront(b[..i], Lines(rest), "\n");
      }
    }
  }

  /** The first line of a text without '\r' whose first '\n' is at `i`. */
  lemma LinesAt(b: string, i: nat)
    requires '\r' !in b && i == IndexOf(b, '\n') < |b|
    requires b[|b| - 1] != '\n'
    ensures Lines(b) == [b[..i]] + Lines(b[i + 1..])
    ensures Lines(b[i + 1..]) != []
    ensures b == b[..i] + "\n" + b[i + 1..]
  {
    assert b[i + 1..] != [];
    assert StripCr(b[..i]) == b[..i];
    SplitAround(b, i);
  }

  /** A string is its part before `i`, its character at `i` and the rest. */
  lemma SplitAround(s: string, i: nat)
    requires i < |s|
    ensures s == s[..i] + [s[i]] + s[i + 1..]
  {
  }

  /** Joining non-empty parts after a first one. */
  lemma JoinFront(x: string, parts: seq<string>, sep: string)
    requires parts != []
    ensures Join([x] + parts, sep) == x + sep + Join(parts, sep)
  {
    assert ([x] + parts)[1..] == parts;
  }

  // ---------------------------------------------------------------------
  // trim, split_whitespace

  /** The first position in `k..hi` that is not whitespace, or `hi`. */
  function TrimFrom(s: string, k: nat, hi: nat): (n: nat)
    requires k <= hi <= |s|
    ensures k <= n <= hi
    decreases hi - k
  {
    if k < hi && IsWhitespace(s[k]) then TrimFrom(s, k + 1, hi) else k
  }

  /** The end of `s[lo..k]` once its trailing whitespace is dropped. */
  function TrimBack(s: string, lo: nat, k: nat): (n: nat)
    requires lo <= k <= |s|
    ensures lo <= n <= k
  {
    if k > lo && IsWhitespace(s[k - 1]) then TrimBack(s, lo, k - 1) else k
  }

  /** What `trim_start` skips is whitespace, and it stops at the first
      character that is not. */
  lemma {:induction false} TrimFromSpec(s: string, k: nat, hi: nat)
    requires k <= hi <= |s|
    ensures forall i :: k <= i < TrimFrom(s, k, hi) ==> IsWhitespace(s[i])
    ensures TrimFrom(s, k, hi) < hi ==> !IsWhitespace(s[TrimFrom(s, k, hi)])
    decreases hi - k
  {
    if k < hi && IsWhitespace(s[k]) {
      TrimFromSpec(s, k + 1, hi);
    }
  }

  /** What `trim_end` drops is whitespace, and it stops at the last
      character that is not. */
  lemma {:induction false} TrimBackSpec(s: string, lo: nat, k: nat)
    requires lo <= k <= |s|
    ensures forall i :: TrimBack(s, lo, k) <= i < k ==> IsWhitespace(s[i])
    ensures lo < TrimBack(s, lo, k) ==> !IsWhitespace(s[TrimBack(s, lo, k) - 1])
  {
    if k > lo && IsWhitespace(s[k - 1]) {
      TrimBackSpec(s, lo, k - 1);
    }
  }

  /** `str::trim_start`. */
  function TrimStart(s: string): string
  {
    s[TrimFrom(s, 0, |s|)..]
  }

  /** `str::trim_end`. */
  function TrimEnd(s: string): string
  {
    s[..TrimBack(s, 0, |s|)]
  }

  /** `str::trim`: both ends. */
  function Trim(s: string): string
  {
    TrimEnd(TrimStart(s))
  }

  /** `s[lo..hi].trim()`, computed on positions of `s` without slicing first. */
  function TrimSlice(s: string, lo: nat, hi: nat): string
    requires lo <= hi <= |s|
  {
    var a := TrimFrom(s, lo, hi);
    s[a..TrimBack(s, a, hi)]
  }

  /** Skipping whitespace in a slice is skipping it in the whole string. */
  lemma {:induction false} TrimFromShift(s: string, lo: nat, k: nat, hi: nat)
    requires lo <= k <= hi <= |s|
    ensures TrimFrom(s[lo..hi], k - lo, hi - lo) == TrimFrom(s, k, hi) - lo
    decreases hi - k
  {
    if k < hi {
      assert s[lo..hi][k - lo] == s[k];
      if IsWhitespace(s[k]) {
        TrimFromShift(s, lo, k + 1, hi);
      }
    }
  }

  /** Dropping trailing whitespace in a slice is dropping it in the whole string. */
  lemma {:induction false} TrimBackShift(s: string, lo: nat, j: nat, k: nat, hi: nat)
    requires lo <= j <= k <= hi <= |s|
    ensures TrimBack(s[lo..hi], j - lo, k - lo) == TrimBack(s, j, k) - lo
  {
    if k > j {
      assert s[lo..hi][k - 1 - lo] == s[k - 1];
      if IsWhitespace(s[k - 1]) {
        TrimBackShift(s, lo, j, k - 1, hi);
      }
    }
  }

  /** The position-based trim is `trim` of the slice. */
  lemma TrimSliceIsTrim(s: string, lo: nat, hi: nat)
    requires lo <= hi <= |s|
    ensures TrimSlice(s, lo, hi) == Trim(s[lo..hi])
  {
    var t := s[lo..hi];
    TrimFromShift(s, lo, lo, hi);
    var a := TrimFrom(s, lo, hi);
    var u := TrimStart(t);
    assert u == s[a..hi];
    TrimBackShift(s, a, a, hi, hi);
    assert TrimBack(u, 0, |u|) == TrimBack(s, a, hi) - a;
  }

  /** No whitespace at either end. */
  predicate IsTrimmed(s: string)
  {
    s == [] || (!IsWhitespace(s[0]) && !IsWhitespace(s[|s| - 1]))
  }

  /** Trimming a slice that is already trimmed changes nothing. */
  lemma TrimSliceOfTrimmed(s: string, lo: nat, hi: nat)
    requires lo <= hi <= |s|
    requires IsTrimmed(s[lo..hi])
    ensures TrimSlice(s, lo, hi) == s[lo..hi]
  {
    if lo < hi {
      assert s[lo..hi][0] == s[lo] && s[lo..hi][hi - lo - 1] == s[hi - 1];
    }
  }

  /** One space before a trimmed slice is dropped by trimming. */
  lemma TrimSliceAfterSpace(s: string, lo: nat, hi: nat)
    requires lo < hi <= |s| && s[lo] == ' '
    requires IsTrimmed(s[lo + 1..hi])
    ensures TrimSlice(s, lo, hi) == s[lo + 1..hi]
  {
    assert IsWhitespace(' ');
    assert TrimFrom(s, lo, hi) == TrimFrom(s, lo + 1, hi);
    TrimSliceOfTrimmed(s, lo + 1, hi);
  }

  /** A string that neither begins nor ends with whitespace is its own trim. */
  lemma TrimIdentity(s: string)
    requires s == [] || (!IsWhitespace(s[0]) && !IsWhitespace(s[|s| - 1]))
    ensures Trim(s) == s
  {
  }

  /** Length of the leading run of non-whitespace characters. */
  function WordLength(s: string): (n: nat)
    ensures n <= |s|
    ensures n < |s| ==> IsWhitespace(s[n])
    ensures forall i :: 0 <= i < n ==> !IsWhitespace(s[i])
  {
    if s == [] || IsWhitespace(s[0]) then 0 else 1 + WordLength(s[1..])
  }

  /** `str::split_whitespace`: the maximal runs of non-whitespace. */
  function SplitWhitespace(s: string): (ws: seq<string>)
    ensures forall k :: 0 <= k < |ws| ==> ws[k] != [] && NoWhitespace(ws[k])
    decreases |s|
  {
    if s == [] then []
    else if IsWhitespace(s[0]) then SplitWhitespace(s[1..])
    else
      var n := WordLength(s);
      [s[..n]] + SplitWhitespace(s[n..])
  }

  lemma {:induction false} SplitWhitespaceAllBlank(s: string)
    requires forall i :: 0 <= i < |s| ==> IsWhitespace(s[i])
    ensures SplitWhitespace(s) == []
  {
    if s != [] {
      SplitWhitespaceAllBlank(s[1..]);
    }
  }

  /** A word followed by whitespace is the first token; the rest is split on. */
  lemma SplitWhitespaceWord(w: string, sep: char, rest: string)
    requires w != [] && NoWhitespace(w) && IsWhitespace(sep)
    ensures SplitWhitespace(w + [sep] + rest) == [w] + SplitWhitespace([sep] + rest)
  {
    var s := w + [sep] + rest;
    assert s[0] == w[0];
    assert WordLength(s) == |w| by {
      WordLengthOf(s, |w|);
    }
    assert s[..|w|] == w;
    assert s[|w|..] == [sep] + rest;
  }

  lemma WordLengthOf(s: string, n: nat)
    requires n <= |s|
    requires n < |s| ==> IsWhitespace(s[n])
    requires forall i :: 0 <= i < n ==> !IsWhitespace(s[i])
    ensures WordLength(s) == n
  {
  }

  lemma SplitWhitespaceLastWord(w: string)
    requires w != [] && NoWhitespace(w)
    ensures SplitWhitespace(w) == [w]
  {
    WordLengthOf(w, |w|);
    assert w[..|w|] == w;
    assert w[|w|..] == [];
    assert SplitWhitespace([]) == [];
  }

  lemma SplitWhitespaceLeadingBlank(sep: char, rest: string)
    requires IsWhitespace(sep)
    ensures SplitWhitespace([sep] + rest) == SplitWhitespace(rest)
  {
    var s := [sep] + rest;
    assert s[1..] == rest;
  }

  /** The empty string has no tokens. */
  lemma SplitWhitespaceEmpty()
    ensures SplitWhitespace([]) == []
  {
  }

  /** Every whitespace character separates tokens: splitting around it is
      splitting each side. With `SplitWhitespaceEmpty` and
      `SplitWhitespaceLastWord` this fixes the tokens of every string as its
      maximal non-whitespace runs, in order. */
  lemma {:induction false} SplitWhitespaceAt(a: string, c: char, b: string)
    requires IsWhitespace(c)
    ensures SplitWhitespace(a + [c] + b) == SplitWhitespace(a) + SplitWhitespace(b)
    decreases |a|
  {
    var s := a + [c] + b;
    if a == [] {
      assert s == [c] + b;
      SplitWhitespaceLeadingBlank(c, b);
    } else if IsWhitespace(a[0]) {
      assert s[1..] == a[1..] + [c] + b;
      SplitWhitespaceAt(a[1..], c, b);
    } else {
      var n := WordLength(a);
      WordLengthOf(s, n);
      assert s[..n] == a[..n];
      assert s[n..] == a[n..] + [c] + b;
      SplitWhitespaceAt(a[n..], c, b);
    }
  }

  /** Words joined by single spaces split back into the same words. */
  lemma {:induction false} SplitWhitespaceOfJoin(ws: seq<string>)
    requires forall k :: 0 <= k < |ws| ==> ws[k] != [] && NoWhitespace(ws[k])
    ensures SplitWhitespace(Join(ws, " ")) == ws
  {
    if |ws| == 0 {
    } else if |ws| == 1 {
      SplitWhitespaceLastWord(ws[0]);
    } else {
      var rest := Join(ws[1..], " ");
      assert Join(ws, " ") == ws[0] + [' '] + rest;
      calc {
        SplitWhitespace(Join(ws, " "));
        { SplitWhitespaceWord(ws[0], ' ', rest); }
        [ws[0]] + SplitWhitespace([' '] + rest);
        { SplitWhitespaceLeadingBlank(' ', rest); }
        [ws[0]] + SplitWhitespace(rest);
        { SplitWhitespaceOfJoin(ws[1..]); }
        [ws[0]] + ws[1..];
      }
      assert [ws[0]] + ws[1..] == ws;
    }
  }

  // ---------------------------------------------------------------------
  // split, splitn(2, _)

  /** `str::split(c)`: the pieces between occurrences of `c`; always at least one. */
  function Split(s: string, c: char): (ps: seq<string>)
    ensures |ps| >= 1
    ensures forall k, j :: 0 <= k < |ps| && 0 <= j < |ps[k]| ==> ps[k][j] != c
    decreases |s|
  {
    var i := IndexOf(s, c);
    if i == |s| then [s] else [s[..i]] + Split(s[i + 1..], c)
  }

  /** Joining the pieces with the separator gives back the string. */
  lemma {:induction false} JoinSplit(s: string, c: char)
    ensures Join(Split(s, c), [c]) == s
    decreases |s|
  {
    var i := IndexOf(s, c);
    if i < |s| {
      JoinSplit(s[i + 1..], c);
      SplitAround(s, i);
      JoinFront(s[..i], Split(s[i + 1..], c), [c]);
    }
  }

  /** Pieces free of the separator come back unchanged from a split of their join. */
  lemma {:induction false} SplitJoin(ps: seq<string>, c: char)
    requires |ps| >= 1
    requires forall k :: 0 <= k < |ps| ==> c !in ps[k]
    ensures Split(Join(ps, [c]), c) == ps
  {
    if |ps| == 1 {
      assert IndexOf(ps[0], c) == |ps[0]|;
    } else {
      var tail := Join(ps[1..], [c]);
      assert ps == [ps[0]] + ps[1..];
      JoinFront(ps[0], ps[1..], [c]);
      FirstPiece(ps[0], c, tail);
      SplitJoin(ps[1..], c);
    }
  }

  /** The first occurrence of `c` in `a + [c] + tail` when `a` has none. */
  lemma FirstPiece(a: string, c: char, tail: string)
    requires c !in a
    ensures var s := a + [c] + tail;
      IndexOf(s, c) == |a| && s[..|a|] == a && s[|a| + 1..] == tail
  {
    var s := a + [c] + tail;
    assert s[|a|] == c;
    assert forall j :: 0 <= j < |a| ==> s[j] != c;
  }

  /** Two pieces free of the separator, joined by it, split back apart. */
  lemma SplitPair(a: string, b: string, c: char)
    requires c !in a && c !in b
    ensures Split(a + [c] + b, c) == [a, b]
  {
    var ps := [a, b];
    assert ps[1..] == [b];
    assert Join(ps, [c]) == a + [c] + b;
    SplitJoin(ps, c);
  }

  /** `str::splitn(2, c)` followed by taking the second piece: the text
      before and after the first `c`, or `None` when there is no `c`. */
  function SplitOnce(s: string, c: char): (r: Option<(string, string)>)
    ensures r.None? <==> c !in s
    ensures r.Some? ==> s == r.value.0 + [c] + r.value.1 && c !in r.value.0
  {
    var i := IndexOf(s, c);
    if i == |s| then None else Some((s[..i], s[i + 1..]))
  }
}
