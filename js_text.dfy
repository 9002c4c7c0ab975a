/** The JavaScript string operations the extractors rely on: `trim()`,
    `toLowerCase()`, `includes()`, `split()` and `join()`, stated on
    `seq<char>`. */
module JsText {
  import opened Optional

  /** ECMAScript WhiteSpace and LineTerminator code points: what `trim()`
      strips at both ends and what `parseInt` skips at the front. */
  predicate IsJsSpace(c: char) {
    c == '\t' || c == '\n' || c == '\U{000B}' || c == '\U{000C}' || c == '\r'
    || c == ' ' || c == '\U{00A0}' || c == '\U{1680}'
    || ('\U{2000}' <= c <= '\U{200A}')
    || c == '\U{2028}' || c == '\U{2029}' || c == '\U{202F}' || c == '\U{205F}'
    || c == '\U{3000}' || c == '\U{FEFF}'
  }

  /** `trimStart()`: drops the leading white space */
  function TrimStart(s: string): (r: string)
    ensures |r| <= |s| && r == s[|s| - |r|..]
    ensures r == [] || !IsJsSpace(r[0])
    ensures forall i :: 0 <= i < |s| - |r| ==> IsJsSpace(s[i])
  {
    if s != [] && IsJsSpace(s[0]) then TrimStart(s[1..]) else s
  }

  /** White space in front of a text is skipped by `trimStart()` */
  lemma {:induction false} TrimStartAfterSpace(w: string, s: string)
    requires forall i :: 0 <= i < |w| ==> IsJsSpace(w[i])
    ensures TrimStart(w + s) == TrimStart(s)
    decreases |w|
  {
    if w == [] {
      assert w + s == s;
    } else {
      assert (w + s)[0] == w[0];
      assert (w + s)[1..] == w[1..] + s;
      TrimStartAfterSpace(w[1..], s);
    }
  }

  /** `trimEnd()`: drops the trailing white space */
  function TrimEnd(s: string): (r: string)
    ensures |r| <= |s| && r == s[..|r|]
    ensures r == [] || !IsJsSpace(r[|r| - 1])
    ensures forall i :: |r| <= i < |s| ==> IsJsSpace(s[i])
  {
    if s != [] && IsJsSpace(s[|s| - 1]) then TrimEnd(s[..|s| - 1]) else s
  }

  /** How many white-space characters `s` starts with */
  function LeadingSpace(s: string): (n: nat)
    ensures n <= |s|
  {
    |s| - |TrimStart(s)|
  }

  /** `trim()`: the longest slice of `s` that neither starts nor ends with
      white space, obtained by dropping white space only */
  function Trim(s: string): (r: string)
    ensures r == [] || (!IsJsSpace(r[0]) && !IsJsSpace(r[|r| - 1]))
    ensures LeadingSpace(s) + |r| <= |s| && r == s[LeadingSpace(s)..LeadingSpace(s) + |r|]
    ensures forall i :: 0 <= i < LeadingSpace(s) ==> IsJsSpace(s[i])
    ensures forall i :: LeadingSpace(s) + |r| <= i < |s| ==> IsJsSpace(s[i])
  {
    var t := TrimStart(s);
    var r := TrimEnd(t);
    TrimParts(s, |s| - |t|, t, r);
    r
  }

  /** Cutting white space off the front of `s` and then off the end of the
      rest leaves a slice of `s` framed by white space only */
  lemma TrimParts(s: string, n: nat, t: string, r: string)
    requires n <= |s| && t == s[n..] && |r| <= |t| && r == t[..|r|]
    requires forall i :: 0 <= i < n ==> IsJsSpace(s[i])
    requires forall i :: |r| <= i < |t| ==> IsJsSpace(t[i])
    requires t == [] || !IsJsSpace(t[0])
    requires r == [] || !IsJsSpace(r[|r| - 1])
    ensures r == [] || (!IsJsSpace(r[0]) && !IsJsSpace(r[|r| - 1]))
    ensures n + |r| <= |s| && r == s[n..n + |r|]
    ensures forall i :: 0 <= i < n ==> IsJsSpace(s[i])
    ensures forall i :: n + |r| <= i < |s| ==> IsJsSpace(s[i])
  {
    if r != [] {
      assert r[0] == t[0];
    }
    forall i | n + |r| <= i < |s| ensures IsJsSpace(s[i]) {
      assert s[i] == t[i - n];
    }
  }

  /** A string that neither starts nor ends with white space is its own
      `trim()` */
  lemma TrimFixed(s: string)
    requires s == [] || (!IsJsSpace(s[0]) && !IsJsSpace(s[|s| - 1]))
    ensures Trim(s) == s
  {
  }

  /** Two ways of cutting `s` into white space, a slice that neither
      starts nor ends with white space, and white space agree on the slice */
  lemma SameCore(s: string, n: nat, r: string, a: nat, b: nat)
    requires n + |r| <= |s| && r == s[n..n + |r|]
    requires r == [] || (!IsJsSpace(r[0]) && !IsJsSpace(r[|r| - 1]))
    requires forall i :: 0 <= i < n ==> IsJsSpace(s[i])
    requires forall i :: n + |r| <= i < |s| ==> IsJsSpace(s[i])
    requires a <= b <= |s|
    requires forall i :: 0 <= i < a ==> IsJsSpace(s[i])
    requires forall i :: b <= i < |s| ==> IsJsSpace(s[i])
    requires a == b || (!IsJsSpace(s[a]) && !IsJsSpace(s[b - 1]))
    ensures r == s[a..b]
  {
    var m := |r|;
    if m > 0 {
      assert s[n] == r[0] && s[n + m - 1] == r[m - 1];
    }
    if a < b {
      assert n <= a && a < n + m;
      assert n <= b - 1 < n + m;
      assert n == a && m == b - a;
    } else {
      assert forall i :: 0 <= i < |s| ==> IsJsSpace(s[i]);
      assert m == 0;
    }
  }

  /** Padding a text with white space on both sides moves its white-space
      ends and the slice between them by the length of the padding in front */
  lemma Padding(pre: string, text: string, post: string, n: nat, m: nat)
    requires n + m <= |text|
    requires forall i :: 0 <= i < |pre| ==> IsJsSpace(pre[i])
    requires forall i :: 0 <= i < |post| ==> IsJsSpace(post[i])
    requires forall i :: 0 <= i < n ==> IsJsSpace(text[i])
    requires forall i :: n + m <= i < |text| ==> IsJsSpace(text[i])
    ensures forall i :: 0 <= i < |pre| + n ==> IsJsSpace((pre + text + post)[i])
    ensures forall i :: |pre| + n + m <= i < |pre + text + post| ==> IsJsSpace((pre + text + post)[i])
    ensures (pre + text + post)[|pre| + n..|pre| + n + m] == text[n..n + m]
  {
    var s := pre + text + post;
    forall i | 0 <= i < |pre| + n ensures IsJsSpace(s[i]) {
      if i < |pre| { assert s[i] == pre[i]; } else { assert s[i] == text[i - |pre|]; }
    }
    forall i | |pre| + n + m <= i < |s| ensures IsJsSpace(s[i]) {
      if i < |pre| + |text| { assert s[i] == text[i - |pre|]; }
      else { assert s[i] == post[i - |pre| - |text|]; }
    }
    var u, v := s[|pre| + n..|pre| + n + m], text[n..n + m];
    forall i | 0 <= i < m ensures u[i] == v[i] {
      assert u[i] == s[|pre| + n + i] == text[n + i];
    }
  }

  /** The `trim()` of a text is whatever lies between its white-space ends */
  lemma TrimOf(s: string, a: nat, b: nat)
    requires a <= b <= |s|
    requires forall i :: 0 <= i < a ==> IsJsSpace(s[i])
    requires forall i :: b <= i < |s| ==> IsJsSpace(s[i])
    requires a == b || (!IsJsSpace(s[a]) && !IsJsSpace(s[b - 1]))
    ensures Trim(s) == s[a..b]
  {
    var n, r := LeadingSpace(s), Trim(s);
    SameCore(s, n, r, a, b);
  }

  /** A text padded around a slice that neither starts nor ends with white
      space trims to that slice */
  lemma PaddedTrim(pre: string, text: string, post: string, n: nat, core: string)
    requires n + |core| <= |text| && core == text[n..n + |core|]
    requires core == [] || (!IsJsSpace(core[0]) && !IsJsSpace(core[|core| - 1]))
    requires forall i :: 0 <= i < |pre| ==> IsJsSpace(pre[i])
    requires forall i :: 0 <= i < |post| ==> IsJsSpace(post[i])
    requires forall i :: 0 <= i < n ==> IsJsSpace(text[i])
    requires forall i :: n + |core| <= i < |text| ==> IsJsSpace(text[i])
    ensures Trim(pre + text + post) == core
  {
    var s := pre + text + post;
    var a, b := |pre| + n, |pre| + n + |core|;
    Padding(pre, text, post, n, |core|);
    assert s[a..b] == core;
    if a < b {
      assert s[a] == s[a..b][0] == core[0];
      assert s[b - 1] == s[a..b][|core| - 1] == core[|core| - 1];
    }
    TrimOf(s, a, b);
  }

  /** `trim()` ignores white space added around a text */
  lemma TrimAround(pre: string, text: string, post: string)
    requires forall i :: 0 <= i < |pre| ==> IsJsSpace(pre[i])
    requires forall i :: 0 <= i < |post| ==> IsJsSpace(post[i])
    ensures Trim(pre + text + post) == Trim(text)
  {
    PaddedTrim(pre, text, post, LeadingSpace(text), Trim(text));
  }

  /** The ASCII case mapping of `toLowerCase()` */
  function LowerChar(c: char): char {
    if 'A' <= c <= 'Z' then (c as int + 32) as char else c
  }

  /** `toLowerCase()` on the ASCII letters, one code unit at a time */
  function ToLower(s: string): (r: string)
    ensures |r| == |s|
    ensures forall i :: 0 <= i < |s| ==> r[i] == LowerChar(s[i])
  {
    if s == [] then [] else [LowerChar(s[0])] + ToLower(s[1..])
  }

  /** `sep` occurs in `s` starting at index `j` */
  predicate OccursAt(s: string, sep: string, j: int) {
    0 <= j && j + |sep| <= |s| && s[j..j + |sep|] == sep
  }

  /** `indexOf()`: the first index at which `sep` occurs, or `None` (-1) */
  function IndexOf(s: string, sep: string): (r: Option<nat>)
    ensures r.Some? ==> OccursAt(s, sep, r.value)
    ensures r.Some? ==> forall j :: 0 <= j < r.value ==> !OccursAt(s, sep, j)
    ensures r.None? ==> forall j :: !OccursAt(s, sep, j)
    decreases |s|
  {
    if |s| < |sep| then None
    else if s[..|sep|] == sep then Some(0)
    else
      assert !OccursAt(s, sep, 0);
      assert forall j :: 1 <= j ==> (OccursAt(s, sep, j) <==> OccursAt(s[1..], sep, j - 1)) by {
        forall j | 1 <= j { OccursShift(s, sep, j); }
      }
      match IndexOf(s[1..], sep)
      case None => None
      case Some(k) => Some(k + 1)
  }

  /** An occurrence past the first character is an occurrence in the tail */
  lemma OccursShift(s: string, sep: string, j: int)
    requires 1 <= j && s != []
    ensures OccursAt(s, sep, j) <==> OccursAt(s[1..], sep, j - 1)
  {
    if j + |sep| <= |s| {
      var a, b := s[1..][j - 1..j - 1 + |sep|], s[j..j + |sep|];
      forall k | 0 <= k < |sep| ensures a[k] == b[k] {
        assert a[k] == s[1..][j - 1 + k] == s[j + k];
      }
      assert a == b;
    }
  }

  /** `includes()` */
  predicate Contains(s: string, sub: string) {
    IndexOf(s, sub).Some?
  }

  /** Every occurrence of `sep` begins with `sep`'s first character */
  lemma OccursAtHead(s: string, sep: string, j: int)
    requires |sep| > 0 && OccursAt(s, sep, j)
    ensures s[j] == sep[0]
  {
    assert s[j..j + |sep|][0] == s[j];
  }

  /** The text before the first occurrence of `sep`, or all of `s` when
      there is none */
  function Before(s: string, sep: string): (r: string)
    requires |sep| > 0
    ensures r <= s
    ensures forall j :: !OccursAt(r, sep, j)
    ensures forall j :: 0 <= j < |r| ==> !OccursAt(s, sep, j)
    ensures r == s || OccursAt(s, sep, |r|)
  {
    match IndexOf(s, sep)
    case None => s
    case Some(i) =>
      assert forall j :: OccursAt(s[..i], sep, j) ==> OccursAt(s, sep, j) && j < i by {
        forall j | OccursAt(s[..i], sep, j) ensures OccursAt(s, sep, j) && j < i {
          assert s[..i][j..j + |sep|] == s[j..j + |sep|];
        }
      }
      s[..i]
  }

  /** `split(sep)` for a non-empty separator: the pieces between the
      non-overlapping occurrences of `sep`, scanning left to right */
  function Split(s: string, sep: string): (r: seq<string>)
    requires |sep| > 0
    ensures |r| >= 1 && r[0] == Before(s, sep)
    ensures IndexOf(s, sep).None? <==> r == [s]
    ensures IndexOf(s, sep).Some? ==> |r| >= 2
    decreases |s|
  {
    match IndexOf(s, sep)
    case None => [s]
    case Some(i) => [s[..i]] + Split(s[i + |sep|..], sep)
  }

  /** After the first piece, `split` goes on with the text that follows the
      first separator */
  lemma SplitRest(s: string, sep: string)
    requires |sep| > 0 && IndexOf(s, sep).Some?
    ensures Split(s, sep)[0] == s[..IndexOf(s, sep).value]
    ensures Split(s, sep)[1..] == Split(s[IndexOf(s, sep).value + |sep|..], sep)
  {
    var i := IndexOf(s, sep).value;
    assert Split(s, sep) == [s[..i]] + Split(s[i + |sep|..], sep);
  }

  /** `join(sep)` */
  function Join(parts: seq<string>, sep: string): (r: string)
    decreases |parts|
  {
    if |parts| == 0 then ""
    else if |parts| == 1 then parts[0]
    else parts[0] + sep + Join(parts[1..], sep)
  }

  /** A join of non-empty pieces starts with the first piece and ends with
      the last one */
  lemma {:induction false} JoinEnds(parts: seq<string>, sep: string)
    requires |parts| > 0 && forall i :: 0 <= i < |parts| ==> parts[i] != []
    ensures Join(parts, sep) != []
    ensures Join(parts, sep)[0] == parts[0][0]
    ensures Join(parts, sep)[|Join(parts, sep)| - 1] == parts[|parts| - 1][|parts[|parts| - 1]| - 1]
    decreases |parts|
  {
    if |parts| > 1 {
      var rest := parts[1..];
      assert rest[|rest| - 1] == parts[|parts| - 1];
      JoinEnds(rest, sep);
      assert Join(parts, sep) == parts[0] + sep + Join(rest, sep);
    }
  }

  /** Joining the pieces of a split with the same separator gives back the
      original string */
  lemma {:induction false} JoinSplit(s: string, sep: string)
    requires |sep| > 0
    ensures Join(Split(s, sep), sep) == s
    decreases |s|
  {
    var r := Split(s, sep);
    match IndexOf(s, sep)
    case None =>
    case Some(i) =>
      var rest := s[i + |sep|..];
      SplitRest(s, sep);
      JoinSplit(rest, sep);
      assert Join(r, sep) == r[0] + sep + Join(r[1..], sep);
      assert s[i..i + |sep|] == sep;
      assert s == s[..i] + s[i..i + |sep|] + rest;
  }

  /** A string without `sep`'s first character has no occurrence of `sep` */
  lemma NoOccurrence(p: string, sep: string)
    requires |sep| > 0 && sep[0] !in p
    ensures IndexOf(p, sep) == None
  {
    forall j | OccursAt(p, sep, j) ensures false {
      OccursAtHead(p, sep, j);
    }
  }

  /** When the piece before a separator lacks `sep`'s first character, the
      first occurrence of `sep` is the one right after that piece */
  lemma FirstOccurrenceAfter(p: string, sep: string, rest: string)
    requires |sep| > 0 && sep[0] !in p
    ensures IndexOf(p + sep + rest, sep) == Some(|p|)
  {
    var s := p + sep + rest;
    assert s[|p|..|p| + |sep|] == sep;
    assert OccursAt(s, sep, |p|);
    forall j | 0 <= j < |p| && OccursAt(s, sep, j) ensures false {
      OccursAtHead(s, sep, j);
    }
  }

  /** Splitting a join whose pieces do not contain the separator's first
      character gives back exactly those pieces, in order */
  lemma {:induction false} SplitJoin(parts: seq<string>, sep: string)
    requires |sep| > 0 && |parts| > 0
    requires forall p :: p in parts ==> sep[0] !in p
    ensures Split(Join(parts, sep), sep) == parts
    decreases |parts|
  {
    var p := parts[0];
    assert p in parts;
    if |parts| == 1 {
      NoOccurrence(p, sep);
    } else {
      var rest := Join(parts[1..], sep);
      var s := p + sep + rest;
      assert Join(parts, sep) == s;
      FirstOccurrenceAfter(p, sep, rest);
      assert s[..|p|] == p;
      assert s[|p| + |sep|..] == rest;
      assert Split(s, sep) == [p] + Split(rest, sep);
      forall q | q in parts[1..] ensures sep[0] !in q {
        assert q in parts;
      }
      SplitJoin(parts[1..], sep);
      assert parts == [p] + parts[1..];
    }
  }

  /** Splitting after a leading piece free of `sep`'s first character
      yields that piece, then the split of the remainder */
  lemma SplitFirst(p: string, sep: string, rest: string)
    requires |sep| > 0 && sep[0] !in p
    ensures Split(p + sep + rest, sep) == [p] + Split(rest, sep)
  {
    var s := p + sep + rest;
    FirstOccurrenceAfter(p, sep, rest);
    assert s[..|p|] == p;
    assert s[|p| + |sep|..] == rest;
  }
}
