/** The few Python `str` operations and regular-expression pieces the list
    parser is built from, on ASCII text: `isspace`/`\s`, `\w`, `strip`,
    `lower`, `replace` of one character, deleting a character class,
    `split(sep)` and `splitlines()` (on '\n' only). */
module PyText {
  import opened Results

  /** `str.isspace()` and the regex class `\s` on ASCII: \t \n \v \f \r,
      the separators \x1c-\x1f and the space. */
  predicate IsSpace(c: char) {
    ('\t' <= c <= '\r') || ('\U{1C}' <= c <= ' ')
  }

  /** The regex class `\w` on ASCII (it contains `\d`). */
  predicate IsWordChar(c: char) {
    ('a' <= c <= 'z') || ('A' <= c <= 'Z') || ('0' <= c <= '9') || c == '_'
  }

  predicate IsUpper(c: char) {
    'A' <= c <= 'Z'
  }

  predicate AllSpace(s: string) {
    forall i :: 0 <= i < |s| ==> IsSpace(s[i])
  }

  /** No whitespace at either end: what `strip()` leaves. */
  predicate IsStripped(s: string) {
    s == "" || (!IsSpace(s[0]) && !IsSpace(s[|s| - 1]))
  }

  /** The end of the longest run of characters satisfying `p` that starts at
      `i`: how a greedy `[...]+` or `[...]*` advances. */
  function Span(s: string, i: nat, p: char -> bool): (j: nat)
    requires i <= |s|
    ensures i <= j <= |s|
    ensures j < |s| ==> !p(s[j])
    decreases |s| - i
  {
    if i < |s| && p(s[i]) then Span(s, i + 1, p) else i
  }

  /** Every character the run covers satisfies `p`. */
  lemma {:induction false} SpanRun(s: string, i: nat, p: char -> bool)
    requires i <= |s|
    ensures forall k :: i <= k < Span(s, i, p) ==> p(s[k])
    decreases |s| - i
  {
    if i < |s| && p(s[i]) {
      SpanRun(s, i + 1, p);
    }
  }

  /** A run of characters satisfying `p`, cut out as a slice, satisfies `p` throughout. */
  lemma RunSlice(s: string, i: nat, j: nat, p: char -> bool)
    requires i <= j <= |s|
    requires forall k :: i <= k < j ==> p(s[k])
    ensures forall k :: 0 <= k < |s[i..j]| ==> p(s[i..j][k])
  {
  }

  /** A run of `p` characters from `i` to exactly `j` is what `Span` finds. */
  lemma {:induction false} SpanExact(s: string, i: nat, j: nat, p: char -> bool)
    requires i <= j <= |s|
    requires forall k :: i <= k < j ==> p(s[k])
    requires j < |s| ==> !p(s[j])
    ensures Span(s, i, p) == j
    decreases j - i
  {
    if i < j {
      SpanExact(s, i + 1, j, p);
    }
  }

  /** The start of the whitespace that ends `s[lo..hi]`. */
  function TrimmedEnd(s: string, lo: nat, hi: nat): (b: nat)
    requires lo <= hi <= |s|
    ensures lo <= b <= hi
    ensures b > lo ==> !IsSpace(s[b - 1])
    decreases hi
  {
    if hi > lo && IsSpace(s[hi - 1]) then TrimmedEnd(s, lo, hi - 1) else hi
  }

  /** Every character after the trimmed end is whitespace. */
  lemma {:induction false} TrimmedEndRun(s: string, lo: nat, hi: nat)
    requires lo <= hi <= |s|
    ensures forall k :: TrimmedEnd(s, lo, hi) <= k < hi ==> IsSpace(s[k])
    decreases hi
  {
    if hi > lo && IsSpace(s[hi - 1]) {
      TrimmedEndRun(s, lo, hi - 1);
    }
  }

  /** Whitespace from exactly `b` up to `hi`, after a non-space, is what
      `TrimmedEnd` finds. */
  lemma {:induction false} TrimmedEndExact(s: string, lo: nat, b: nat, hi: nat)
    requires lo <= b <= hi <= |s|
    requires forall k :: b <= k < hi ==> IsSpace(s[k])
    requires b > lo ==> !IsSpace(s[b - 1])
    ensures TrimmedEnd(s, lo, hi) == b
    decreases hi
  {
    if b < hi {
      TrimmedEndExact(s, lo, b, hi - 1);
    }
  }

  /** `str.strip()`: the text between the leading and the trailing whitespace. */
  function Strip(s: string): (r: string)
    ensures |r| <= |s|
    ensures IsStripped(r)
  {
    var a := Span(s, 0, IsSpace);
    var b := TrimmedEnd(s, a, |s|);
    s[a..b]
  }

  /** What `strip()` removes is whitespace, from both ends only. */
  lemma StripRemovesEnds(s: string)
    ensures exists a, b :: 0 <= a <= b <= |s| && Strip(s) == s[a..b] && AllSpace(s[..a]) && AllSpace(s[b..])
    ensures forall i :: 0 <= i < |Strip(s)| ==> Strip(s)[i] in s
  {
    var a := Span(s, 0, IsSpace);
    var b := TrimmedEnd(s, a, |s|);
    SpanRun(s, 0, IsSpace);
    TrimmedEndRun(s, a, |s|);
    assert AllSpace(s[..a]) && AllSpace(s[b..]);
    assert forall i :: 0 <= i < b - a ==> s[a..b][i] == s[a + i];
  }

  /** Text that has no whitespace at its ends is left as it is. */
  lemma StripKeeps(s: string)
    requires IsStripped(s)
    ensures Strip(s) == s
  {
    if s != "" {
      SpanExact(s, 0, 0, IsSpace);
    }
  }

  /** Whitespace around stripped text is removed. */
  lemma {:induction false} StripPadded(pad: string, t: string, pad': string)
    requires AllSpace(pad) && AllSpace(pad') && IsStripped(t) && t != ""
    ensures Strip(pad + t + pad') == t
  {
    var s := pad + t + pad';
    SpanExact(s, 0, |pad|, IsSpace);
    assert s[|pad|..|pad| + |t|] == t;
    assert forall k :: |pad| + |t| <= k < |s| ==> s[k] == pad'[k - |pad| - |t|];
    TrimmedEndExact(s, |pad|, |pad| + |t|, |s|);
  }

  /** Only whitespace strips to the empty string. */
  lemma StripAllSpace(s: string)
    requires AllSpace(s)
    ensures Strip(s) == ""
  {
  }

  /** `str.lower()` on ASCII letters. */
  function LowerChar(c: char): (d: char)
    ensures !IsUpper(d)
    ensures IsSpace(d) <==> IsSpace(c)
    ensures !IsUpper(c) ==> d == c
  {
    if IsUpper(c) then ('a' as int + (c as int - 'A' as int)) as char else c
  }

  function Lower(s: string): (r: string)
    ensures |r| == |s|
    ensures forall i :: 0 <= i < |s| ==> r[i] == LowerChar(s[i])
  {
    if s == "" then "" else [LowerChar(s[0])] + Lower(s[1..])
  }

  /** `s.replace(from, to)` for a one-character `from`. */
  function ReplaceChar(s: string, from: char, to: char): (r: string)
    ensures |r| == |s|
    ensures forall i :: 0 <= i < |s| ==> r[i] == (if s[i] == from then to else s[i])
  {
    if s == "" then "" else [if s[0] == from then to else s[0]] + ReplaceChar(s[1..], from, to)
  }

  /** Lower-casing works piece by piece. */
  lemma LowerAppend(a: string, b: string)
    ensures Lower(a + b) == Lower(a) + Lower(b)
  {
    var l := Lower(a) + Lower(b);
    assert forall i :: 0 <= i < |a + b| ==> l[i] == LowerChar((a + b)[i]);
  }

  /** Replacing one character works piece by piece. */
  lemma ReplaceCharAppend(a: string, b: string, from: char, to: char)
    ensures ReplaceChar(a + b, from, to) == ReplaceChar(a, from, to) + ReplaceChar(b, from, to)
  {
    var r := ReplaceChar(a, from, to) + ReplaceChar(b, from, to);
    assert forall i :: 0 <= i < |a + b| ==> r[i] == (if (a + b)[i] == from then to else (a + b)[i]);
  }

  /** `re.sub("[...]", "", s)`: `s` without the characters `drop` holds. */
  function Delete(s: string, drop: char -> bool): (r: string)
    ensures |r| <= |s|
    ensures forall i :: 0 <= i < |r| ==> !drop(r[i])
    ensures (forall i :: 0 <= i < |s| ==> !drop(s[i])) ==> r == s
  {
    if s == "" then ""
    else if drop(s[0]) then Delete(s[1..], drop)
    else [s[0]] + Delete(s[1..], drop)
  }

  /** Deleting works piece by piece. */
  lemma {:induction false} DeleteAppend(a: string, b: string, drop: char -> bool)
    ensures Delete(a + b, drop) == Delete(a, drop) + Delete(b, drop)
  {
    if a == "" {
      assert a + b == b;
    } else {
      assert (a + b)[0] == a[0];
      assert (a + b)[1..] == a[1..] + b;
      DeleteAppend(a[1..], b, drop);
    }
  }

  /** Deleting keeps every property all characters of the input share. */
  lemma {:induction false} DeleteKeepsAll(s: string, drop: char -> bool, p: char -> bool)
    requires forall i :: 0 <= i < |s| ==> p(s[i])
    ensures forall i :: 0 <= i < |Delete(s, drop)| ==> p(Delete(s, drop)[i])
  {
    if s != "" {
      DeleteKeepsAll(s[1..], drop, p);
    }
  }

  /** Deleting adds no character. */
  lemma {:induction false} DeleteKeeps(s: string, drop: char -> bool)
    ensures forall i :: 0 <= i < |Delete(s, drop)| ==> Delete(s, drop)[i] in s
  {
    if s != "" {
      DeleteKeeps(s[1..], drop);
      var r := Delete(s[1..], drop);
      assert forall c :: c in r ==> c in s;
    }
  }

  /** `sep` occurs in `s` at position `k`. */
  predicate OccursAt(s: string, sep: string, k: int) {
    0 <= k && k + |sep| <= |s| && s[k..k + |sep|] == sep
  }

  ghost predicate Contains(s: string, sep: string) {
    exists k :: OccursAt(s, sep, k)
  }

  /** `s.find(sep, from)`: the first occurrence of `sep` at or after `from`. */
  function IndexOf(s: string, sep: string, from: nat): (r: Option<nat>)
    ensures r.Some? ==> from <= r.value && OccursAt(s, sep, r.value)
    decreases |s| - from
  {
    if from + |sep| > |s| then None
    else if s[from..from + |sep|] == sep then Some(from)
    else IndexOf(s, sep, from + 1)
  }

  /** `find` returns the first occurrence: none is missed before it. */
  lemma {:induction false} IndexOfFirst(s: string, sep: string, from: nat)
    ensures forall k :: from <= k && OccursAt(s, sep, k) ==> IndexOf(s, sep, from).Some? && IndexOf(s, sep, from).value <= k
    decreases |s| - from
  {
    if from + |sep| <= |s| && s[from..from + |sep|] != sep {
      IndexOfFirst(s, sep, from + 1);
    }
  }

  /** The parts of a split glued back together with the separator. */
  function Join(parts: seq<string>, sep: string): string {
    if |parts| == 0 then ""
    else if |parts| == 1 then parts[0]
    else parts[0] + sep + Join(parts[1..], sep)
  }

  /** Text before the first occurrence of `sep` holds no occurrence of it. */
  lemma PrefixBeforeFirst(s: string, sep: string, i: nat)
    requires sep != "" && IndexOf(s, sep, 0) == Some(i)
    ensures !Contains(s[..i], sep)
  {
    IndexOfFirst(s, sep, 0);
    if Contains(s[..i], sep) {
      var k :| OccursAt(s[..i], sep, k);
      assert s[..i][k..k + |sep|] == s[k..k + |sep|];
      assert OccursAt(s, sep, k);
    }
  }

  /** `s.split(sep)`: the pieces between the occurrences of `sep`, found from
      left to right without overlap. */
  function SplitOn(s: string, sep: string): (parts: seq<string>)
    requires sep != ""
    ensures |parts| >= 1
    decreases |s|
  {
    match IndexOf(s, sep, 0)
    case None => [s]
    case Some(i) => [s[..i]] + SplitOn(s[i + |sep|..], sep)
  }

  /** A text is its three slices cut at `i` and `j`. */
  lemma SliceThree(s: string, i: nat, j: nat)
    requires i <= j <= |s|
    ensures s == s[..i] + s[i..j] + s[j..]
  {
  }

  /** Joining the pieces with the separator gives the text back. */
  lemma {:induction false} SplitOnJoin(s: string, sep: string)
    requires sep != ""
    ensures Join(SplitOn(s, sep), sep) == s
    decreases |s|
  {
    match IndexOf(s, sep, 0)
    case None =>
    case Some(i) =>
      SplitOnJoin(s[i + |sep|..], sep);
      var rest := SplitOn(s[i + |sep|..], sep);
      assert SplitOn(s, sep) == [s[..i]] + rest;
      assert ([s[..i]] + rest)[1..] == rest;
      SliceThree(s, i, i + |sep|);
  }

  /** No piece holds the separator. */
  lemma {:induction false} SplitOnParts(s: string, sep: string)
    requires sep != ""
    ensures forall i :: 0 <= i < |SplitOn(s, sep)| ==> !Contains(SplitOn(s, sep)[i], sep)
    decreases |s|
  {
    match IndexOf(s, sep, 0)
    case None =>
      IndexOfFirst(s, sep, 0);
      assert !Contains(s, sep);
      assert SplitOn(s, sep) == [s];
    case Some(i) =>
      PrefixBeforeFirst(s, sep, i);
      SplitOnParts(s[i + |sep|..], sep);
      var rest := SplitOn(s[i + |sep|..], sep);
      assert SplitOn(s, sep) == [s[..i]] + rest;
      assert forall j :: 1 <= j < |SplitOn(s, sep)| ==> SplitOn(s, sep)[j] == rest[j - 1];
  }

  /** When `a` does not hold the separator's first character, the first piece
      of `a + sep + b` is `a`. */
  lemma SplitOnFirst(a: string, sep: string, b: string)
    requires sep != "" && sep[0] !in a
    ensures SplitOn(a + sep + b, sep) == [a] + SplitOn(b, sep)
  {
    var s := a + sep + b;
    assert s[|a|..|a| + |sep|] == sep;
    assert OccursAt(s, sep, |a|);
    IndexOfFirst(s, sep, 0);
    assert s[..|a|] == a && s[|a| + |sep|..] == b;
  }

  /** Text without the separator's first character is not split. */
  lemma SplitOnWhole(b: string, sep: string)
    requires sep != "" && sep[0] !in b
    ensures SplitOn(b, sep) == [b]
  {
  }

  lemma CharContains(t: string, c: char)
    requires c in t
    ensures Contains(t, [c])
  {
    var k :| 0 <= k < |t| && t[k] == c;
    assert t[k..k + 1] == [c];
    assert OccursAt(t, [c], k);
  }

  /** `str.splitlines()` for text whose only line break is '\n': the pieces
      between the breaks, where a final break does not open another line. */
  function SplitLines(s: string): (lines: seq<string>)
    ensures lines == [] <==> s == ""
  {
    if s == "" then [] else DropFinalEmpty(SplitOn(s, "\n"))
  }

  /** The pieces without an empty last one. */
  function DropFinalEmpty(parts: seq<string>): (r: seq<string>)
    requires |parts| >= 1
    ensures r == [] <==> parts == [""]
  {
    if parts[|parts| - 1] == "" then parts[..|parts| - 1] else parts
  }

  /** Dropping the final empty piece does not touch the first one. */
  lemma DropFinalEmptyCons(a: string, rest: seq<string>)
    requires |rest| >= 1
    ensures DropFinalEmpty([a] + rest) == [a] + DropFinalEmpty(rest)
  {
    if rest[|rest| - 1] == "" {
      assert ([a] + rest)[..|rest|] == [a] + rest[..|rest| - 1];
    }
  }

  /** No line holds a line break. */
  lemma SplitLinesNoBreak(s: string)
    ensures forall i :: 0 <= i < |SplitLines(s)| ==> '\n' !in SplitLines(s)[i]
  {
    if s != "" {
      var parts := SplitOn(s, "\n");
      SplitOnParts(s, "\n");
      forall i | 0 <= i < |parts|
        ensures '\n' !in parts[i]
      {
        if '\n' in parts[i] {
          CharContains(parts[i], '\n');
        }
      }
    }
  }

  /** A line followed by '\n' is the first line of the text. */
  lemma SplitLinesFirst(a: string, b: string)
    requires '\n' !in a
    ensures SplitLines(a + "\n" + b) == [a] + SplitLines(b)
  {
    SplitOnFirst(a, "\n", b);
    DropFinalEmptyCons(a, SplitOn(b, "\n"));
    if b == "" {
      SplitOnWhole(b, "\n");
    }
  }

  /** The last line, not followed by '\n'. */
  lemma SplitLinesLast(a: string)
    requires '\n' !in a && a != ""
    ensures SplitLines(a) == [a]
  {
    SplitOnWhole(a, "\n");
  }
}
