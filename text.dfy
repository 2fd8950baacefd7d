/** The string operations of Python that the statement builders rely on:
    `upper`, `lower`, `strip`, `split`, `', '.join`, slicing off the last
    character, and the "append part and separator" loops. Case mapping and
    whitespace are those of ASCII. */
module Text {
  import opened Wrappers

  /** `str.isspace` on ASCII: tab to carriage return, the four separator
      controls 0x1C..0x1F, and the space. */
  predicate IsSpace(c: char) {
    ('\t' <= c <= '\r') || ('\U{1C}' <= c <= ' ')
  }

  function UpperChar(c: char): char {
    if 'a' <= c <= 'z' then (c as int - 32) as char else c
  }

  function LowerChar(c: char): char {
    if 'A' <= c <= 'Z' then (c as int + 32) as char else c
  }

  /** `str.upper()` */
  function Upper(s: string): (r: string)
    ensures |r| == |s|
  {
    seq(|s|, i requires 0 <= i < |s| => UpperChar(s[i]))
  }

  /** The result of `str.upper()` has no lower-case letter. */
  lemma UpperNoLowerCase(s: string)
    ensures NoLowerCase(Upper(s))
  {
  }

  /** `str.lower()` */
  function Lower(s: string): (r: string)
    ensures |r| == |s|
  {
    seq(|s|, i requires 0 <= i < |s| => LowerChar(s[i]))
  }

  predicate NoLowerCase(s: string) {
    forall i :: 0 <= i < |s| ==> !('a' <= s[i] <= 'z')
  }

  predicate NoUpperCase(s: string) {
    forall i :: 0 <= i < |s| ==> !('A' <= s[i] <= 'Z')
  }

  /** The result of `str.lower()` has no upper-case letter. */
  lemma LowerNoUpperCase(s: string)
    ensures NoUpperCase(Lower(s))
  {
  }

  // ---------------------------------------------------------------------
  // Searching and splitting

  predicate OccursAt(s: string, pat: string, i: int) {
    0 <= i && i + |pat| <= |s| && s[i..i + |pat|] == pat
  }

  lemma OccursShift(s: string, pat: string, j: int)
    requires 1 <= j && |s| >= 1
    ensures OccursAt(s, pat, j) == OccursAt(s[1..], pat, j - 1)
  {
    if j + |pat| <= |s| {
      var here, there := s[j..j + |pat|], s[1..][j - 1..j - 1 + |pat|];
      forall k | 0 <= k < |pat| ensures here[k] == there[k] {
        assert s[1..][j - 1 + k] == s[j + k];
      }
      assert here == there;
    }
  }

  /** `s.find(pat)` for a non-empty pattern: the first occurrence, if any. */
  function IndexOf(s: string, pat: string): (r: Option<nat>)
    requires |pat| > 0
    ensures r.Some? ==> OccursAt(s, pat, r.value)
    ensures r.Some? ==> forall j :: 0 <= j < r.value ==> !OccursAt(s, pat, j)
    ensures r.None? ==> forall j :: !OccursAt(s, pat, j)
    decreases |s|
  {
    if |s| < |pat| then None
    else if s[..|pat|] == pat then Some(0)
    else
      var rest := IndexOf(s[1..], pat);
      assert forall j {:trigger OccursAt(s, pat, j)} :: 1 <= j ==> OccursAt(s, pat, j) == OccursAt(s[1..], pat, j - 1) by {
        forall j | 1 <= j { OccursShift(s, pat, j); }
      }
      match rest
      case None => None
      case Some(i) => Some(i + 1)
  }

  /** `s.split(sep)` for a non-empty separator: the pieces between the
      non-overlapping occurrences of `sep`, scanned from the left. */
  function Split(s: string, sep: string): (r: seq<string>)
    requires |sep| > 0
    ensures |r| >= 1
    decreases |s|
  {
    match IndexOf(s, sep)
    case None => [s]
    case Some(i) => [s[..i]] + Split(s[i + |sep|..], sep)
  }

  /** `sep.join(parts)` */
  function Join(parts: seq<string>, sep: string): string
    decreases |parts|
  {
    if |parts| == 0 then ""
    else if |parts| == 1 then parts[0]
    else parts[0] + sep + Join(parts[1..], sep)
  }

  /** Splitting and joining again with the same separator gives back the text. */
  lemma {:induction false} JoinSplit(s: string, sep: string)
    requires |sep| > 0
    ensures Join(Split(s, sep), sep) == s
    decreases |s|
  {
    match IndexOf(s, sep)
    case None =>
    case Some(i) =>
      var rest := s[i + |sep|..];
      var tail := Split(rest, sep);
      var parts := [s[..i]] + tail;
      assert Split(s, sep) == parts;
      JoinSplit(rest, sep);
      assert parts[1..] == tail;
      assert Join(parts, sep) == s[..i] + sep + rest;
      ThreeParts(s, i, |sep|);
  }

  /** A text is its part before `i`, the `k` characters from `i`, and the rest. */
  lemma ThreeParts(s: string, i: nat, k: nat)
    requires i + k <= |s|
    ensures s == s[..i] + s[i..i + k] + s[i + k..]
  {
  }

  /** An occurrence with none before it is the one `find` reports. */
  lemma IndexOfFirst(s: string, pat: string, i: nat)
    requires |pat| > 0 && OccursAt(s, pat, i)
    requires forall j :: 0 <= j < i ==> !OccursAt(s, pat, j)
    ensures IndexOf(s, pat) == Some(i)
  {
  }

  /** The first piece of a split never contains the separator. */
  lemma SplitHeadFree(s: string, sep: string)
    requires |sep| > 0
    ensures forall j :: !OccursAt(Split(s, sep)[0], sep, j)
  {
    match IndexOf(s, sep)
    case None =>
    case Some(i) =>
      var head := s[..i];
      assert Split(s, sep)[0] == head;
      forall j | OccursAt(head, sep, j) ensures false {
        assert s[j..j + |sep|] == head[j..j + |sep|];
        assert OccursAt(s, sep, j);
      }
  }

  /** The first piece of a split is the longest prefix free of the
      separator: the whole text, or the text up to an occurrence. */
  lemma SplitHead(s: string, sep: string)
    requires |sep| > 0
    ensures var h := Split(s, sep)[0];
      h <= s && (forall j :: !OccursAt(h, sep, j)) && (h == s || OccursAt(s, sep, |h|))
  {
    SplitHeadFree(s, sep);
    SplitFirst(s, sep);
  }

  /** The first piece of a split: the text up to the first separator. */
  lemma SplitFirst(s: string, sep: string)
    requires |sep| > 0
    ensures Split(s, sep)[0] == match IndexOf(s, sep) case None => s case Some(j) => s[..j]
  {
  }

  /** The piece after the first separator: `s.split(sep)[1]` when it exists. */
  lemma SplitSecond(s: string, sep: string)
    requires |sep| > 0
    ensures |Split(s, sep)| >= 2 <==> IndexOf(s, sep).Some?
    ensures IndexOf(s, sep).Some? ==>
      var rest := s[IndexOf(s, sep).value + |sep|..];
      Split(s, sep)[1] == match IndexOf(rest, sep) case None => rest case Some(j) => rest[..j]
  {
    match IndexOf(s, sep)
    case None =>
    case Some(i) =>
      var rest := s[i + |sep|..];
      assert Split(s, sep) == [s[..i]] + Split(rest, sep);
      SplitFirst(rest, sep);
  }

  // ---------------------------------------------------------------------
  // Stripping

  function StripLeft(s: string): (r: string)
    ensures |r| <= |s| && r == s[|s| - |r|..]
    ensures r != [] ==> !IsSpace(r[0])
    ensures forall i :: 0 <= i < |s| - |r| ==> IsSpace(s[i])
    decreases |s|
  {
    if s != [] && IsSpace(s[0]) then StripLeft(s[1..]) else s
  }

  function StripRight(s: string): (r: string)
    ensures |r| <= |s| && r == s[..|r|]
    ensures r != [] ==> !IsSpace(r[|r| - 1])
    ensures forall i :: |r| <= i < |s| ==> IsSpace(s[i])
    decreases |s|
  {
    if s != [] && IsSpace(s[|s| - 1]) then StripRight(s[..|s| - 1]) else s
  }

  /** `str.strip()`: the text without its leading and trailing whitespace. */
  function Strip(s: string): (r: string)
  {
    StripRight(StripLeft(s))
  }

  /** The stripped text is a slice of the original. */
  lemma StripSlice(s: string) returns (l: nat)
    ensures l + |Strip(s)| <= |s| && Strip(s) == s[l..l + |Strip(s)|]
  {
    var t := StripLeft(s);
    l := |s| - |t|;
    var u := StripRight(t);
    SliceOfSuffix(s, l, |u|);
  }

  lemma SliceOfSuffix<T>(s: seq<T>, l: nat, k: nat)
    requires l + k <= |s|
    ensures s[l..][..k] == s[l..l + k]
  {
  }

  /** An occurrence starts with the pattern's first character. */
  lemma OccursFirst(s: string, pat: string, j: int)
    requires |pat| > 0
    ensures OccursAt(s, pat, j) ==> 0 <= j < |s| && s[j] == pat[0]
  {
    if OccursAt(s, pat, j) {
      assert s[j..j + |pat|][0] == s[j];
    }
  }

  /** An occurrence in a slice is an occurrence in the text. */
  lemma OccursInSlice(s: string, pat: string, a: nat, b: nat, j: int)
    requires a <= b <= |s|
    ensures OccursAt(s[a..b], pat, j) ==> OccursAt(s, pat, a + j)
  {
    if OccursAt(s[a..b], pat, j) {
      var t := s[a..b];
      assert 0 <= j && j + |pat| <= |t|;
      forall k | 0 <= k < |pat| ensures s[a + j + k] == pat[k] {
        assert t[j..j + |pat|][k] == pat[k];
        assert t[j + k] == s[a + j + k];
      }
      assert s[a + j..a + j + |pat|] == pat;
    }
  }

  /** A slice of text without upper-case letters has none either. */
  lemma NoUpperSlice(s: string, a: nat, b: nat)
    requires a <= b <= |s| && NoUpperCase(s)
    ensures NoUpperCase(s[a..b])
  {
    forall i | 0 <= i < b - a ensures !('A' <= s[a..b][i] <= 'Z') {
      assert s[a..b][i] == s[a + i];
    }
  }

  /** A pattern that occurs nowhere in a text occurs nowhere in a slice of it. */
  lemma AbsentFromSlice(s: string, pat: string, a: nat, b: nat, t: string)
    requires a <= b <= |s| && t == s[a..b]
    requires forall j :: !OccursAt(s, pat, j)
    ensures forall j :: !OccursAt(t, pat, j)
  {
    forall j ensures !OccursAt(t, pat, j) {
      OccursInSlice(s, pat, a, b, j);
    }
  }

  /** Stripping adds no occurrence of a pattern. */
  lemma StripAbsent(s: string, pat: string)
    requires forall j :: !OccursAt(s, pat, j)
    ensures forall j :: !OccursAt(Strip(s), pat, j)
  {
    var l := StripSlice(s);
    AbsentFromSlice(s, pat, l, l + |Strip(s)|, Strip(s));
  }

  /** Stripping adds no upper-case letter. */
  lemma StripNoUpper(s: string)
    requires NoUpperCase(s)
    ensures NoUpperCase(Strip(s))
  {
    var l := StripSlice(s);
    NoUpperSlice(s, l, l + |Strip(s)|);
  }

  /** Text that neither starts nor ends with whitespace is left as it is. */
  lemma StripUnchanged(s: string)
    requires s != [] ==> !IsSpace(s[0]) && !IsSpace(s[|s| - 1])
    ensures Strip(s) == s
  {
  }

  // ---------------------------------------------------------------------
  // Loops that append a part and a separator, then drop the last character

  /** Python's `s[:-1]`, which is empty on the empty string. */
  function DropLast<T>(s: seq<T>): seq<T> {
    if s == [] then s else s[..|s| - 1]
  }

  /** Each part followed by `sep`: what a loop doing `code += part + sep` builds. */
  function Terminated(parts: seq<string>, sep: string): string
    decreases |parts|
  {
    if parts == [] then "" else Terminated(parts[..|parts| - 1], sep) + parts[|parts| - 1] + sep
  }

  lemma {:induction false} JoinSnoc(parts: seq<string>, x: string, sep: string)
    requires parts != []
    ensures Join(parts + [x], sep) == Join(parts, sep) + sep + x
    decreases |parts|
  {
    if |parts| == 1 {
      assert (parts + [x])[1..] == [x];
    } else {
      JoinSnoc(parts[1..], x, sep);
      assert (parts + [x])[1..] == parts[1..] + [x];
    }
  }

  /** Terminating every part is joining them and adding one more separator. */
  lemma {:induction false} TerminatedJoin(parts: seq<string>, sep: string)
    requires parts != []
    ensures Terminated(parts, sep) == Join(parts, sep) + sep
    decreases |parts|
  {
    var init := parts[..|parts| - 1];
    if init != [] {
      TerminatedJoin(init, sep);
      JoinSnoc(init, parts[|parts| - 1], sep);
      assert init + [parts[|parts| - 1]] == parts;
    }
  }

  /** One more pass of the loop: the next part and its separator. */
  lemma TerminatedPrefix(parts: seq<string>, i: nat, sep: string)
    requires i < |parts|
    ensures Terminated(parts[..i + 1], sep) == Terminated(parts[..i], sep) + parts[i] + sep
  {
    assert parts[..i + 1][..i] == parts[..i];
  }

  /** Appending to a text that has a fixed prefix. */
  lemma AppendAfterPrefix(prefix: string, body: string, x: string, y: string)
    ensures prefix + body + x + y == prefix + (body + x + y)
  {
  }

  /** Terminating the parts of two lists one after the other. */
  lemma {:induction false} TerminatedAppend(a: seq<string>, b: seq<string>, sep: string)
    ensures Terminated(a + b, sep) == Terminated(a, sep) + Terminated(b, sep)
    decreases |b|
  {
    if b != [] {
      var init := b[..|b| - 1];
      TerminatedAppend(a, init, sep);
      assert (a + b)[..|a + b| - 1] == a + init;
    } else {
      assert a + b == a;
    }
  }

  /** A non-empty sequence is its prefix without the last element followed
      by that element. */
  lemma InitLast<T>(s: seq<T>)
    requires s != []
    ensures s == s[..|s| - 1] + [s[|s| - 1]]
  {
  }

  lemma DropLastAppend<T>(a: seq<T>, b: seq<T>)
    requires b != []
    ensures DropLast(a + b) == a + DropLast(b)
  {
    assert (a + b)[..|a + b| - 1] == a + b[..|b| - 1];
  }

  /** Dropping the final one-character separator leaves the parts joined by it. */
  lemma DropLastTerminated(parts: seq<string>, c: char)
    requires parts != []
    ensures DropLast(Terminated(parts, [c])) == Join(parts, [c])
  {
    TerminatedJoin(parts, [c]);
    var j := Join(parts, [c]);
    assert j + [c] != [];
    assert (j + [c])[..|j + [c]| - 1] == j;
  }

  // ---------------------------------------------------------------------
  // Ordered dictionaries keep the first position of each key

  /** The distinct elements of `s`, in the order of their first occurrence. */
  function Dedup(s: seq<string>): (r: seq<string>)
    ensures forall x :: x in r <==> x in s
    ensures forall i, j :: 0 <= i < j < |r| ==> r[i] != r[j]
    decreases |s|
  {
    if s == [] then []
    else
      var init := s[..|s| - 1];
      assert s == init + [s[|s| - 1]];
      var d := Dedup(init);
      if s[|s| - 1] in d then d else d + [s[|s| - 1]]
  }

  predicate Distinct(s: seq<string>) {
    forall i, j :: 0 <= i < j < |s| ==> s[i] != s[j]
  }

  /** A list without repeats is its own de-duplication. */
  lemma {:induction false} DedupDistinct(s: seq<string>)
    requires Distinct(s)
    ensures Dedup(s) == s
    decreases |s|
  {
    if s != [] {
      var init := s[..|s| - 1];
      DedupDistinct(init);
      assert s == init + [s[|s| - 1]];
      assert s[|s| - 1] !in init by {
        forall k | 0 <= k < |init| ensures init[k] != s[|s| - 1] {
          assert init[k] == s[k];
        }
      }
    }
  }

  /** Joining with `sep` every part prefixed by a space. */
  lemma {:induction false} JoinSpaced(parts: seq<string>, sep: string)
    requires parts != []
    ensures Join(seq(|parts|, i requires 0 <= i < |parts| => " " + parts[i]), sep) == " " + Join(parts, sep + " ")
    decreases |parts|
  {
    var spaced := seq(|parts|, i requires 0 <= i < |parts| => " " + parts[i]);
    if |parts| > 1 {
      var tail := parts[1..];
      JoinSpaced(tail, sep);
      assert spaced[1..] == seq(|tail|, i requires 0 <= i < |tail| => " " + tail[i]);
    }
  }
}
