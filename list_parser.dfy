/** `VBoxManageListParser`: turns the text `VBoxManage list` prints into
    dictionaries. Three grammars: the short VM listing (`"name" {id}` per
    line), the long VM listing (blocks of `key: value` lines separated by two
    blank lines) and the host information (a two-line header, then
    `key: value` lines). */
module ListParser {
  import opened Results
  import opened PyText
  import opened Dicts

  // ---------------------------------------------------------------------
  // Key normalisation (`__parse_key_value`)
  // ---------------------------------------------------------------------

  /** The characters `[)(,\.]` that are deleted from keys. */
  predicate IsDroppedPunct(c: char) {
    c == ')' || c == '(' || c == ',' || c == '.'
  }

  /** The middle of the key normaliser: lower-case, then spaces to
      underscores. */
  function Under(s: string): string {
    ReplaceChar(Lower(s), ' ', '_')
  }

  /** The key half of `__parse_key_value`: strip, lower-case, spaces to
      underscores, then delete `( ) , .`. Every other character stays. */
  function NormalizeKey(k: string): (key: string)
    ensures |key| <= |k|
    ensures forall i :: 0 <= i < |key| ==> key[i] != ' ' && !IsUpper(key[i]) && !IsDroppedPunct(key[i])
  {
    var underscored := Under(Strip(k));
    DeleteKeepsAll(underscored, IsDroppedPunct, c => c != ' ' && !IsUpper(c));
    Delete(underscored, IsDroppedPunct)
  }

  /** The only whitespace a normalised key holds is whitespace of the key
      it came from (a tab inside the key, say). */
  lemma NormalizeKeySpaces(k: string)
    ensures forall i :: 0 <= i < |NormalizeKey(k)| && IsSpace(NormalizeKey(k)[i]) ==> NormalizeKey(k)[i] in k
  {
    var stripped := Strip(k);
    var lowered := Lower(stripped);
    var underscored := ReplaceChar(lowered, ' ', '_');
    var key := NormalizeKey(k);
    StripRemovesEnds(k);
    DeleteKeeps(underscored, IsDroppedPunct);
    forall i | 0 <= i < |key| && IsSpace(key[i])
      ensures key[i] in k
    {
      var j :| 0 <= j < |underscored| && underscored[j] == key[i];
      assert lowered[j] == key[i];
      assert stripped[j] == key[i];
    }
  }

  /** `__parse_key_value(k, v)`: the normalised key and the stripped value. */
  function ParseKeyValue(k: string, v: string): (kv: (string, string))
    ensures ' ' !in kv.0 && IsStripped(kv.1)
  {
    (NormalizeKey(k), Strip(v))
  }

  /** A key that is already lower-case, free of whitespace and of `( ) , .`
      is its own normal form. */
  lemma NormalizeKeyFixed(k: string)
    requires forall i :: 0 <= i < |k| ==> !IsSpace(k[i]) && !IsUpper(k[i]) && !IsDroppedPunct(k[i])
    ensures NormalizeKey(k) == k
  {
    StripKeeps(k);
    assert Lower(k) == k;
    assert ReplaceChar(k, ' ', '_') == k;
  }

  /** Normalising twice is normalising once, for keys whose only whitespace
      is the space character. */
  lemma NormalizeKeyIdempotent(k: string)
    requires forall i :: 0 <= i < |k| && IsSpace(k[i]) ==> k[i] == ' '
    ensures NormalizeKey(NormalizeKey(k)) == NormalizeKey(k)
  {
    var key := NormalizeKey(k);
    NormalizeKeySpaces(k);
    assert forall i :: 0 <= i < |key| ==> !IsSpace(key[i]);
    NormalizeKeyFixed(key);
  }

  /** The mapping itself, for a stripped key without `( ) , .`: each space
      becomes `_`, each capital its lower-case letter, and every other
      character (`#`, digits, `_`) stays where it was. */
  lemma NormalizeKeyMaps(k: string)
    requires IsStripped(k)
    requires forall i :: 0 <= i < |k| ==> !IsDroppedPunct(k[i])
    ensures |NormalizeKey(k)| == |k|
    ensures forall i :: 0 <= i < |k| ==> NormalizeKey(k)[i] == (if k[i] == ' ' then '_' else LowerChar(k[i]))
  {
    StripKeeps(k);
    var underscored := Under(k);
    assert forall i :: 0 <= i < |underscored| ==> !IsDroppedPunct(underscored[i]);
  }

  /** Lower-casing and replacing work piece by piece. */
  lemma UnderAppend(a: string, b: string)
    ensures Under(a + b) == Under(a) + Under(b)
  {
    LowerAppend(a, b);
    ReplaceCharAppend(Lower(a), Lower(b), ' ', '_');
  }

  /** On a stripped key the normaliser is the deletion after `Under`. */
  lemma NormalizeStripped(s: string)
    requires IsStripped(s)
    ensures NormalizeKey(s) == Delete(Under(s), IsDroppedPunct)
  {
    StripKeeps(s);
  }

  lemma UnderPunct(c: char)
    requires IsDroppedPunct(c)
    ensures Under([c]) == [c] && Delete([c], IsDroppedPunct) == []
  {
  }

  /** Each of `( ) , .` inside a key is removed and nothing else changes:
      the key normalises as if that character were not there, so
      `SATA (0, 0)` normalises like `SATA 0 0`. */
  lemma NormalizeKeyDropsPunct(a: string, c: char, b: string)
    requires IsDroppedPunct(c)
    requires IsStripped(a + [c] + b) && IsStripped(a + b)
    ensures NormalizeKey(a + [c] + b) == NormalizeKey(a + b)
  {
    var ua, ub := Under(a), Under(b);
    calc {
      NormalizeKey(a + [c] + b);
      { NormalizeStripped(a + [c] + b); }
      Delete(Under(a + [c] + b), IsDroppedPunct);
      { UnderAppend(a + [c], b); UnderAppend(a, [c]); UnderPunct(c); }
      Delete(ua + [c] + ub, IsDroppedPunct);
      { DeleteAppend(ua + [c], ub, IsDroppedPunct); }
      Delete(ua + [c], IsDroppedPunct) + Delete(ub, IsDroppedPunct);
      { DeleteAppend(ua, [c], IsDroppedPunct); UnderPunct(c); }
      Delete(ua, IsDroppedPunct) + Delete(ub, IsDroppedPunct);
      { DeleteAppend(ua, ub, IsDroppedPunct); }
      Delete(ua + ub, IsDroppedPunct);
      { UnderAppend(a, b); }
      Delete(Under(a + b), IsDroppedPunct);
      { NormalizeStripped(a + b); }
      NormalizeKey(a + b);
    }
  }

  /** Deleting `( ) , .` and mapping the other characters commute: the
      mapping never makes or unmakes one of those characters. */
  lemma {:induction false} UnderDelete(s: string)
    ensures Delete(Under(s), IsDroppedPunct) == Under(Delete(s, IsDroppedPunct))
  {
    if s != "" {
      var head, rest := [s[0]], s[1..];
      assert s == head + rest;
      UnderAppend(head, rest);
      DeleteAppend(Under(head), Under(rest), IsDroppedPunct);
      UnderDelete(rest);
      if IsDroppedPunct(s[0]) {
        UnderPunct(s[0]);
      } else {
        assert !IsDroppedPunct(Under(head)[0]);
        assert Delete(Under(head), IsDroppedPunct) == Under(head);
        assert Delete(s, IsDroppedPunct) == head + Delete(rest, IsDroppedPunct);
        UnderAppend(head, Delete(rest, IsDroppedPunct));
      }
    }
  }

  /** The whole normaliser, for every key: strip, delete `( ) , .`, then map
      each remaining character in place (a space to `_`, a capital to its
      lower-case letter, anything else to itself). */
  lemma NormalizeKeyPunctFirst(k: string)
    ensures NormalizeKey(k) == Under(Delete(Strip(k), IsDroppedPunct))
    ensures |NormalizeKey(k)| == |Delete(Strip(k), IsDroppedPunct)|
    ensures forall i :: 0 <= i < |NormalizeKey(k)| ==>
      var kept := Delete(Strip(k), IsDroppedPunct);
      NormalizeKey(k)[i] == (if kept[i] == ' ' then '_' else LowerChar(kept[i]))
  {
    UnderDelete(Strip(k));
  }

  // ---------------------------------------------------------------------
  // Short VM listing (`parse_vms` with `long=False`)
  // ---------------------------------------------------------------------

  /** The classes `[_\d\w-]` (names) and `[\d\w-]` (ids): both are the word
      characters and the hyphen. */
  predicate IsNameChar(c: char) {
    IsWordChar(c) || c == '-'
  }

  predicate IsName(s: string) {
    s != "" && forall i :: 0 <= i < |s| ==> IsNameChar(s[i])
  }

  /** One VM of a short listing: `"name" {id}`. */
  datatype VmEntry = VmEntry(name: string, id: string)

  /** The text `"name"<gap>{id}`. */
  function VmLine(vm: VmEntry, gap: string): string {
    "\"" + vm.name + "\"" + gap + "{" + vm.id + "}"
  }

  /** The regex `"([_\d\w-]+)"\s+\{([\d\w-]+)\}` tried at position `p`. */
  function MatchVmAt(s: string, p: nat): Option<VmEntry>
    requires p <= |s|
  {
    if p < |s| && s[p] == '"' then
      var a := Span(s, p + 1, IsNameChar);
      if a > p + 1 && a < |s| && s[a] == '"' then
        var b := Span(s, a + 1, IsSpace);
        if b > a + 1 && b < |s| && s[b] == '{' then
          var c := Span(s, b + 1, IsNameChar);
          if c > b + 1 && c < |s| && s[c] == '}' then
            Some(VmEntry(s[p + 1..a], s[b + 1..c]))
          else None
        else None
      else None
    else None
  }

  /** Where the three runs of a match at `p` end. */
  lemma MatchVmAtEnds(s: string, p: nat) returns (a: nat, b: nat, c: nat)
    requires p <= |s| && MatchVmAt(s, p).Some?
    ensures p + 1 < a && a + 1 < b && b + 1 < c < |s|
    ensures s[p] == '"' && s[a] == '"' && s[b] == '{' && s[c] == '}'
    ensures MatchVmAt(s, p).value == VmEntry(s[p + 1..a], s[b + 1..c])
    ensures IsName(s[p + 1..a]) && AllSpace(s[a + 1..b]) && IsName(s[b + 1..c])
  {
    a := Span(s, p + 1, IsNameChar);
    b := Span(s, a + 1, IsSpace);
    c := Span(s, b + 1, IsNameChar);
    RunsOfMatch(s, p, a, b, c);
  }

  /** The three greedy runs of a match hold a name, whitespace and an id. */
  lemma RunsOfMatch(s: string, p: nat, a: nat, b: nat, c: nat)
    requires p + 1 < a && a + 1 < b && b + 1 < c < |s|
    requires Span(s, p + 1, IsNameChar) == a && Span(s, a + 1, IsSpace) == b && Span(s, b + 1, IsNameChar) == c
    ensures IsName(s[p + 1..a]) && AllSpace(s[a + 1..b]) && IsName(s[b + 1..c])
  {
    SpanRun(s, p + 1, IsNameChar);
    RunSlice(s, p + 1, a, IsNameChar);
    SpanRun(s, a + 1, IsSpace);
    RunSlice(s, a + 1, b, IsSpace);
    SpanRun(s, b + 1, IsNameChar);
    RunSlice(s, b + 1, c, IsNameChar);
  }

  /** The text from `p` through `c`, cut at `a` and `b`. */
  lemma SliceAround<T>(s: seq<T>, p: nat, a: nat, b: nat, c: nat)
    requires p < a < b < c < |s|
    ensures s[p..c + 1] == [s[p]] + s[p + 1..a] + [s[a]] + s[a + 1..b] + [s[b]] + s[b + 1..c] + [s[c]]
  {
    var left, right := s[p..a + 1], s[b..c + 1];
    assert left == [s[p]] + s[p + 1..a] + [s[a]];
    assert s[b + 1..c + 1] == s[b + 1..c] + [s[c]];
    assert right == [s[b]] + s[b + 1..c + 1];
    assert right == [s[b]] + s[b + 1..c] + [s[c]];
    assert s[p..c + 1] == left + s[a + 1..b] + right;
  }

  /** A match is the text `"name"<gap>{id}` standing at `p`. */
  lemma MatchVmAtSound(s: string, p: nat)
    requires p <= |s| && MatchVmAt(s, p).Some?
    ensures var vm := MatchVmAt(s, p).value;
      exists gap :: gap != "" && AllSpace(gap) && p + |VmLine(vm, gap)| <= |s|
                    && s[p..p + |VmLine(vm, gap)|] == VmLine(vm, gap)
  {
    var a, b, c := MatchVmAtEnds(s, p);
    SliceAround(s, p, a, b, c);
    var gap := s[a + 1..b];
    assert s[p..c + 1] == VmLine(MatchVmAt(s, p).value, gap);
  }

  /** Where `re.search` finds its match: the first position from `from` on
      at which the pattern matches. */
  function SearchVmFrom(s: string, from: nat): (pos: Option<nat>)
    requires from <= |s|
    ensures pos.Some? ==> from <= pos.value <= |s|
    decreases |s| - from
  {
    if MatchVmAt(s, from).Some? then Some(from)
    else if from == |s| then None
    else SearchVmFrom(s, from + 1)
  }

  /** A position the search finds holds a match, and no earlier one does:
      the match is the leftmost. */
  lemma {:induction false} SearchVmLeftmost(s: string, from: nat)
    requires from <= |s| && SearchVmFrom(s, from).Some?
    ensures var pos := SearchVmFrom(s, from).value;
      MatchVmAt(s, pos).Some? && forall q :: from <= q < pos ==> MatchVmAt(s, q).None?
    decreases |s| - from
  {
    if MatchVmAt(s, from).None? {
      assert from < |s| && SearchVmFrom(s, from) == SearchVmFrom(s, from + 1);
      SearchVmLeftmost(s, from + 1);
    }
  }

  /** The search finds nothing only when no position holds a match. */
  lemma {:induction false} SearchVmNone(s: string, from: nat)
    requires from <= |s| && SearchVmFrom(s, from).None?
    ensures forall q :: from <= q <= |s| ==> MatchVmAt(s, q).None?
    decreases |s| - from
  {
    if from < |s| {
      SearchVmNone(s, from + 1);
    }
  }

  /** `re.search`: the match at the leftmost position that has one. */
  function SearchVm(s: string): Option<VmEntry> {
    match SearchVmFrom(s, 0)
    case Some(p) => MatchVmAt(s, p)
    case None => None
  }

  /** The match at `p`, read off the ends of its three runs. */
  lemma MatchVmAtParts(s: string, p: nat, a: nat, b: nat, c: nat)
    requires p + 1 < a < b < c < |s|
    requires s[p] == '"' && s[a] == '"' && s[b] == '{' && s[c] == '}' && a + 1 < b && b + 1 < c
    requires Span(s, p + 1, IsNameChar) == a && Span(s, a + 1, IsSpace) == b && Span(s, b + 1, IsNameChar) == c
    ensures MatchVmAt(s, p) == Some(VmEntry(s[p + 1..a], s[b + 1..c]))
  {
  }

  /** Conversely, a quoted name, whitespace and a braced id standing at `p`
      are matched there. */
  lemma MatchVmRuns(s: string, p: nat, a: nat, b: nat, c: nat)
    requires p + 1 < a && a + 1 < b && b + 1 < c < |s|
    requires s[p] == '"' && s[a] == '"' && s[b] == '{' && s[c] == '}'
    requires IsName(s[p + 1..a]) && AllSpace(s[a + 1..b]) && IsName(s[b + 1..c])
    ensures MatchVmAt(s, p) == Some(VmEntry(s[p + 1..a], s[b + 1..c]))
  {
    assert forall k :: p + 1 <= k < a ==> s[k] == s[p + 1..a][k - p - 1];
    assert forall k :: a + 1 <= k < b ==> s[k] == s[a + 1..b][k - a - 1];
    assert forall k :: b + 1 <= k < c ==> s[k] == s[b + 1..c][k - b - 1];
    SpanExact(s, p + 1, a, IsNameChar);
    SpanExact(s, a + 1, b, IsSpace);
    SpanExact(s, b + 1, c, IsNameChar);
    MatchVmAtParts(s, p, a, b, c);
  }

  /** The text a short listing shows for a VM is matched, name and id intact,
      whatever follows it. */
  lemma MatchVmLine(vm: VmEntry, gap: string, rest: string)
    requires IsName(vm.name) && IsName(vm.id) && gap != "" && AllSpace(gap)
    ensures MatchVmAt(VmLine(vm, gap) + rest, 0) == Some(vm)
  {
    var s := VmLine(vm, gap) + rest;
    var a := 1 + |vm.name|;
    var b := a + 1 + |gap|;
    var c := b + 1 + |vm.id|;
    VmLineShape(vm, gap, rest);
    MatchVmRuns(s, 0, a, b, c);
  }

  /** Where the pieces of `"name"<gap>{id}` stand. */
  lemma VmLineShape(vm: VmEntry, gap: string, rest: string)
    ensures var s := VmLine(vm, gap) + rest;
      var a := 1 + |vm.name|;
      var b := a + 1 + |gap|;
      var c := b + 1 + |vm.id|;
      c < |s| && s[0] == '"' && s[1..a] == vm.name && s[a] == '"' && s[a + 1..b] == gap
      && s[b] == '{' && s[b + 1..c] == vm.id && s[c] == '}'
  {
    var s := VmLine(vm, gap) + rest;
    var a := 1 + |vm.name|;
    var b := a + 1 + |gap|;
    assert s == ("\"" + vm.name + "\"") + gap + ("{" + vm.id + "}" + rest);
    assert s[..a + 1] == "\"" + vm.name + "\"";
    assert s[b..] == "{" + vm.id + "}" + rest;
  }

  /** `re.search` on the stripped line finds the VM the line shows. */
  lemma SearchVmLine(vm: VmEntry, gap: string)
    requires IsName(vm.name) && IsName(vm.id) && gap != "" && AllSpace(gap)
    ensures SearchVm(Strip(VmLine(vm, gap))) == Some(vm)
  {
    var s := VmLine(vm, gap);
    assert s[|s| - 1] == '}';
    StripKeeps(s);
    MatchVmLine(vm, gap, "");
    assert s + "" == s;
  }

  /** What one line of a short listing assigns: nothing for an empty line,
      else `id -> name` of the first match. */
  function ShortItem(line: string): Option<(string, string)> {
    if line == "" then None
    else
      match SearchVm(Strip(line))
      case Some(vm) => Some((vm.id, vm.name))
      case None => None
  }

  function ShortItems(lines: seq<string>): seq<Option<(string, string)>> {
    seq(|lines|, i requires 0 <= i < |lines| => ShortItem(lines[i]))
  }

  /** A non-empty line holds a match; `vm.group(2)` fails otherwise. */
  predicate ShortLineOk(line: string) {
    line != "" ==> SearchVm(Strip(line)).Some?
  }

  predicate ShortWellFormed(lines: seq<string>) {
    AllOk(lines, ShortLineOk)
  }

  /** Line `i` is non-empty and shows a VM with this id. */
  predicate DeclaresId(lines: seq<string>, i: int, id: string) {
    0 <= i < |lines| && lines[i] != "" && SearchVm(Strip(lines[i])).Some?
    && SearchVm(Strip(lines[i])).value.id == id
  }

  /** The dictionary `parse_short_vms` returns, or `Malformed` where it raises. */
  function ShortVms(output: string): Result<map<string, string>> {
    var lines := SplitLines(output);
    if ShortWellFormed(lines) then Ok(Assigned(ShortItems(lines))) else Malformed
  }

  /** `parse_short_vms`: one pass over the lines, filling the dictionary. */
  method ParseShortVms(output: string) returns (r: Result<map<string, string>>)
    ensures r == ShortVms(output)
  {
    var lines := SplitLines(output);
    var vms: map<string, string> := map[];
    var i := 0;
    while i < |lines|
      invariant 0 <= i <= |lines|
      invariant ShortWellFormed(lines[..i])
      invariant vms == Assigned(ShortItems(lines)[..i])
    {
      var line := lines[i];
      if line != "" {
        var vm := SearchVm(Strip(line));
        if vm.None? {
          assert !ShortLineOk(lines[i]);
          return Malformed;
        }
        vms := vms[vm.value.id := vm.value.name];
      }
      AllOkStep(lines, i, ShortLineOk);
      AssignedPrefix(ShortItems(lines), i);
      i := i + 1;
    }
    assert lines[..i] == lines;
    PrefixAll(ShortItems(lines));
    r := Ok(vms);
  }

  /** A short listing fails exactly when a non-empty line shows no VM. */
  lemma ShortVmsMalformed(output: string)
    ensures var lines := SplitLines(output);
      ShortVms(output) == Malformed <==>
      exists i :: 0 <= i < |lines| && lines[i] != "" && SearchVm(Strip(lines[i])).None?
  {
  }

  /** A line of whitespace alone is not skipped: only the empty line is. */
  lemma BlankLineMalformed(output: string, i: int)
    requires 0 <= i < |SplitLines(output)|
    requires SplitLines(output)[i] != "" && AllSpace(SplitLines(output)[i])
    ensures ShortVms(output) == Malformed
  {
    StripAllSpace(SplitLines(output)[i]);
  }

  /** Text made of empty lines only lists no VM. */
  lemma ShortVmsNoLines(output: string)
    requires forall i :: 0 <= i < |SplitLines(output)| ==> SplitLines(output)[i] == ""
    ensures ShortVms(output) == Ok(map[])
  {
    var items := ShortItems(SplitLines(output));
    forall k
      ensures k !in Assigned(items)
    {
      AssignedHas(items, k);
    }
    assert Assigned(items) == map[];
  }

  /** Line `i` assigns `id` exactly when it declares it. */
  lemma ShortItemDeclares(lines: seq<string>, i: int, id: string)
    ensures Assigns(ShortItems(lines), i, id) <==> DeclaresId(lines, i, id)
  {
    if 0 <= i < |lines| {
      assert ShortItems(lines)[i] == ShortItem(lines[i]);
    }
  }

  /** The ids of a short listing are exactly the ids its lines show. */
  lemma ShortVmsIds(output: string, m: map<string, string>, id: string)
    requires ShortVms(output) == Ok(m)
    ensures id in m <==> exists i :: DeclaresId(SplitLines(output), i, id)
  {
    var lines := SplitLines(output);
    var items := ShortItems(lines);
    AssignedHas(items, id);
    if id in m {
      var i :| Assigns(items, i, id);
      ShortItemDeclares(lines, i, id);
    }
    if exists i :: DeclaresId(lines, i, id) {
      var i :| DeclaresId(lines, i, id);
      ShortItemDeclares(lines, i, id);
    }
  }

  /** Each id maps to the name on the last line that shows it: a later line
      overwrites an earlier one. */
  lemma ShortVmsLastLineWins(output: string, m: map<string, string>, i: int, id: string)
    requires ShortVms(output) == Ok(m)
    requires DeclaresId(SplitLines(output), i, id)
    requires forall j :: i < j < |SplitLines(output)| ==> !DeclaresId(SplitLines(output), j, id)
    ensures id in m && m[id] == SearchVm(Strip(SplitLines(output)[i])).value.name
  {
    var lines := SplitLines(output);
    var items := ShortItems(lines);
    ShortItemDeclares(lines, i, id);
    forall j | i < j < |items|
      ensures !Assigns(items, j, id)
    {
      ShortItemDeclares(lines, j, id);
    }
    AssignedAt(items, i, id);
  }

  // ---------------------------------------------------------------------
  // Long VM listing (`parse_vms` with `long=True`)
  // ---------------------------------------------------------------------

  /** The class `[\d\w\s)(,-/]`; `,-/` is a range holding `, - . /`. */
  predicate IsKeyChar(c: char) {
    IsWordChar(c) || IsSpace(c) || c == '(' || c == ')' || c == ',' || c == '-' || c == '.' || c == '/'
  }

  predicate IsKey(s: string) {
    s != "" && forall i :: 0 <= i < |s| ==> IsKeyChar(s[i])
  }

  predicate IsNotNewline(c: char) {
    c != '\n'
  }

  /** `(.*)`: the text up to the first line break. */
  function RestOfLine(t: string): (r: string)
    ensures |r| <= |t| && r == t[..|r|] && '\n' !in r
    ensures '\n' !in t ==> r == t
    ensures |r| < |t| ==> t[|r|] == '\n'
  {
    var n := Span(t, 0, IsNotNewline);
    SpanRun(t, 0, IsNotNewline);
    assert '\n' !in t ==> n == |t|;
    t[..n]
  }

  /** `re.search(r"^([\d\w\s)(,-/]+):(.*)", line)`: groups 1 and 2. The key
      class has no ':', so group 1 is all the text before the first ':'. */
  function MatchField(line: string): (m: Option<(string, string)>)
    ensures m.Some? ==> IsKey(m.value.0) && |m.value.0| < |line| && line[..|m.value.0|] == m.value.0
                        && line[|m.value.0|] == ':' && m.value.1 == RestOfLine(line[|m.value.0| + 1..])
  {
    var j := Span(line, 0, IsKeyChar);
    SpanRun(line, 0, IsKeyChar);
    if 0 < j < |line| && line[j] == ':' then Some((line[..j], RestOfLine(line[j + 1..]))) else None
  }

  /** Every `key:rest` line whose key is in the class is matched, and the
      key is cut at the colon. */
  lemma MatchFieldLine(k: string, v: string)
    requires IsKey(k)
    ensures MatchField(k + ":" + v) == Some((k, RestOfLine(v)))
  {
    var line := k + ":" + v;
    assert line[..|k|] == k && line[|k|] == ':' && line[|k| + 1..] == v;
    SpanExact(line, 0, |k|, IsKeyChar);
  }

  /** `<none>` and the empty value become `None`. */
  datatype Field = Null | Text(text: string)

  function NullIfEmpty(value: string): (f: Field)
    ensures f == Null <==> value == "<none>" || value == ""
  {
    if value == "<none>" || value == "" then Null else Text(value)
  }

  /** A long block's record: field name to value. */
  type Record = map<string, Field>

  /** What one line of a long block assigns: the normalised key and the
      value, or nothing when the line does not match. */
  function FieldOf(line: string): (f: Option<(string, Field)>)
    ensures f.Some? ==> ' ' !in f.value.0
    ensures f.Some? && f.value.1.Text? ==> var t := f.value.1.text; t != "" && t != "<none>" && IsStripped(t)
  {
    match MatchField(line)
    case None => None
    case Some((k, v)) =>
      var (key, value) := ParseKeyValue(k, v);
      Some((key, NullIfEmpty(value)))
  }

  /** A `key: value` line records the normalised key and the stripped value;
      the value keeps any colons it holds. */
  lemma FieldOfLine(k: string, v: string)
    requires IsKey(k)
    ensures FieldOf(k + ":" + v) == Some((NormalizeKey(k), NullIfEmpty(Strip(RestOfLine(v)))))
  {
    MatchFieldLine(k, v);
  }

  function FieldItems(lines: seq<string>): seq<Option<(string, Field)>> {
    seq(|lines|, i requires 0 <= i < |lines| => FieldOf(lines[i]))
  }

  /** The record `vm` after the inner loop over one block's lines. */
  function RecordOf(block: string): Record {
    Assigned(FieldItems(SplitLines(block)))
  }

  /** `sep_vm`: two blank lines between the blocks. */
  const SEP_VM: string := "\n\n\n"

  /** What one block assigns: its record, under its `uuid` value. */
  function BlockItem(block: string): (item: Option<(Field, Record)>)
    ensures item.Some? ==> "uuid" in item.value.1 && item.value.1["uuid"] == item.value.0
  {
    if block == "" then None
    else
      var vm := RecordOf(block);
      if "uuid" in vm then Some((vm["uuid"], vm)) else None
  }

  function BlockItems(blocks: seq<string>): seq<Option<(Field, Record)>> {
    seq(|blocks|, i requires 0 <= i < |blocks| => BlockItem(blocks[i]))
  }

  /** A non-empty block has a `uuid` field; `vm["uuid"]` fails otherwise. */
  predicate BlockOk(block: string) {
    block != "" ==> "uuid" in RecordOf(block)
  }

  predicate LongWellFormed(blocks: seq<string>) {
    AllOk(blocks, BlockOk)
  }

  /** The dictionary `parse_long_vms` returns, or `Malformed` where it raises.
      A `uuid` value of `<none>` keys its record under `None`, as a Python
      dictionary would. */
  function LongVms(output: string): Result<map<Field, Record>> {
    var blocks := SplitOn(output, SEP_VM);
    if LongWellFormed(blocks) then Ok(Assigned(BlockItems(blocks))) else Malformed
  }

  /** The inner loop of `parse_long_vms`: the record `vm` of one block. */
  method ParseRecord(block: string) returns (vm: Record)
    ensures vm == RecordOf(block)
  {
    var lines := SplitLines(block);
    vm := map[];
    var j := 0;
    while j < |lines|
      invariant 0 <= j <= |lines|
      invariant vm == Assigned(FieldItems(lines)[..j])
    {
      AssignedPrefix(FieldItems(lines), j);
      var field := FieldOf(lines[j]);
      assert FieldItems(lines)[j] == field;
      if field.Some? {
        vm := vm[field.value.0 := field.value.1];
      }
      j := j + 1;
    }
    PrefixAll(FieldItems(lines));
  }

  /** A non-empty block without a `uuid` field makes the listing fail. */
  lemma LongVmsFailsAt(output: string, blocks: seq<string>, i: nat)
    requires blocks == SplitOn(output, SEP_VM)
    requires i < |blocks| && blocks[i] != "" && "uuid" !in RecordOf(blocks[i])
    ensures LongVms(output) == Malformed
  {
    assert !BlockOk(blocks[i]);
  }

  /** One step of `parse_long_vms` over a block with a `uuid` field. */
  lemma LongStepRecord(blocks: seq<string>, i: nat, vms: map<Field, Record>, vm: Record)
    requires i < |blocks| && blocks[i] != "" && vm == RecordOf(blocks[i]) && "uuid" in vm
    requires LongWellFormed(blocks[..i]) && vms == Assigned(BlockItems(blocks)[..i])
    ensures LongWellFormed(blocks[..i + 1])
    ensures vms[vm["uuid"] := vm] == Assigned(BlockItems(blocks)[..i + 1])
  {
    AllOkStep(blocks, i, BlockOk);
    AssignedPrefix(BlockItems(blocks), i);
    assert BlockItems(blocks)[i] == BlockItem(blocks[i]) == Some((vm["uuid"], vm));
  }

  /** One step of `parse_long_vms` over an empty block: nothing changes. */
  lemma LongStepEmpty(blocks: seq<string>, i: nat, vms: map<Field, Record>)
    requires i < |blocks| && blocks[i] == ""
    requires LongWellFormed(blocks[..i]) && vms == Assigned(BlockItems(blocks)[..i])
    ensures LongWellFormed(blocks[..i + 1])
    ensures vms == Assigned(BlockItems(blocks)[..i + 1])
  {
    AllOkStep(blocks, i, BlockOk);
    AssignedPrefix(BlockItems(blocks), i);
    assert BlockItems(blocks)[i] == BlockItem(blocks[i]) == None;
  }

  /** `parse_long_vms`: a loop over the blocks and, inside it, over the
      lines of each block. */
  method ParseLongVms(output: string) returns (r: Result<map<Field, Record>>)
    ensures r == LongVms(output)
  {
    var blocks := SplitOn(output, SEP_VM);
    var vms: map<Field, Record> := map[];
    var i := 0;
    while i < |blocks|
      invariant 0 <= i <= |blocks|
      invariant LongWellFormed(blocks[..i])
      invariant vms == Assigned(BlockItems(blocks)[..i])
    {
      var vmInfo := blocks[i];
      if vmInfo != "" {
        var vm := ParseRecord(vmInfo);
        if "uuid" !in vm {
          LongVmsFailsAt(output, blocks, i);
          return Malformed;
        }
        LongStepRecord(blocks, i, vms, vm);
        vms := vms[vm["uuid"] := vm];
      } else {
        LongStepEmpty(blocks, i, vms);
      }
      i := i + 1;
    }
    assert blocks[..i] == blocks;
    PrefixAll(BlockItems(blocks));
    r := Ok(vms);
  }

  /** Every record is stored under its own `uuid` field. */
  lemma LongVmsKeyedByUuid(output: string, m: map<Field, Record>, k: Field)
    requires LongVms(output) == Ok(m) && k in m
    ensures "uuid" in m[k] && m[k]["uuid"] == k
  {
    var blocks := SplitOn(output, SEP_VM);
    var items := BlockItems(blocks);
    AssignedFrom(items, k);
    var i :| 0 <= i < |items| && items[i] == Some((k, m[k]));
    assert items[i] == BlockItem(blocks[i]);
  }

  /** A long listing fails exactly when a non-empty block has no `uuid` field. */
  lemma LongVmsMalformed(output: string)
    ensures var blocks := SplitOn(output, SEP_VM);
      LongVms(output) == Malformed <==>
      exists i :: 0 <= i < |blocks| && blocks[i] != "" && "uuid" !in RecordOf(blocks[i])
  {
    var blocks := SplitOn(output, SEP_VM);
    assert LongVms(output).Malformed? <==> !LongWellFormed(blocks);
    if !LongWellFormed(blocks) {
      var i :| 0 <= i < |blocks| && !BlockOk(blocks[i]);
      assert blocks[i] != "" && "uuid" !in RecordOf(blocks[i]);
    }
  }

  /** A block has a `uuid` field exactly when one of its lines has the key
      `uuid`; a non-empty block without one makes the listing fail. */
  lemma UuidFromLine(block: string)
    ensures "uuid" in RecordOf(block) <==>
      exists i :: Assigns(FieldItems(SplitLines(block)), i, "uuid")
  {
    AssignedHas(FieldItems(SplitLines(block)), "uuid");
  }

  /** The number of non-empty blocks. */
  function NonEmptyBlocks(blocks: seq<string>): nat {
    if blocks == [] then 0
    else NonEmptyBlocks(blocks[..|blocks| - 1]) + (if blocks[|blocks| - 1] != "" then 1 else 0)
  }

  lemma {:induction false} BlockAssignments(blocks: seq<string>)
    ensures Assignments(BlockItems(blocks)) <= NonEmptyBlocks(blocks)
  {
    if blocks != [] {
      var n := |blocks|;
      assert BlockItems(blocks)[..n - 1] == BlockItems(blocks[..n - 1]);
      BlockAssignments(blocks[..n - 1]);
    }
  }

  /** A long listing holds at most one record per non-empty block. */
  lemma LongVmsSize(output: string, m: map<Field, Record>)
    requires LongVms(output) == Ok(m)
    ensures |m| <= NonEmptyBlocks(SplitOn(output, SEP_VM))
  {
    BlockAssignments(SplitOn(output, SEP_VM));
    AssignedSize(BlockItems(SplitOn(output, SEP_VM)));
  }

  /** The record stored under a `uuid` is that of the last block with that
      `uuid`: a later block overwrites an earlier one. */
  lemma LongVmsLastBlockWins(output: string, m: map<Field, Record>, i: int, k: Field)
    requires LongVms(output) == Ok(m)
    requires LastAssigns(BlockItems(SplitOn(output, SEP_VM)), i, k)
    ensures k in m && m[k] == RecordOf(SplitOn(output, SEP_VM)[i])
  {
    var blocks := SplitOn(output, SEP_VM);
    var items := BlockItems(blocks);
    AssignedAt(items, i, k);
    assert items[i] == BlockItem(blocks[i]);
  }

  /** No field is ever the string `<none>` or empty: those are `None`; every
      text value is stripped. */
  lemma RecordValues(block: string, key: string)
    requires key in RecordOf(block)
    ensures var f := RecordOf(block)[key];
      f.Text? ==> f.text != "<none>" && f.text != "" && IsStripped(f.text)
  {
    var lines := SplitLines(block);
    var items := FieldItems(lines);
    AssignedFrom(items, key);
    var i :| 0 <= i < |items| && items[i] == Some((key, RecordOf(block)[key]));
    assert items[i] == FieldOf(lines[i]);
  }

  // ---------------------------------------------------------------------
  // Host information (`parse_hostinfo`)
  // ---------------------------------------------------------------------

  /** The separator of a host-information line. */
  const SEP_HOST: string := ": "

  /** `output.splitlines()[2:]`: the lines after the two header lines. */
  function HostBody(output: string): seq<string> {
    var lines := SplitLines(output);
    if |lines| < 2 then [] else lines[2..]
  }

  /** A body line splits into exactly two parts; the call to
      `__parse_key_value` fails otherwise. */
  predicate HostLineOk(line: string) {
    |SplitOn(line, SEP_HOST)| == 2
  }

  predicate HostWellFormed(body: seq<string>) {
    AllOk(body, HostLineOk)
  }

  /** What one body line assigns. */
  function HostItem(line: string): Option<(string, string)> {
    var parts := SplitOn(line, SEP_HOST);
    if |parts| == 2 then Some(ParseKeyValue(parts[0], parts[1])) else None
  }

  function HostItems(body: seq<string>): seq<Option<(string, string)>> {
    seq(|body|, i requires 0 <= i < |body| => HostItem(body[i]))
  }

  /** The dictionary `parse_hostinfo` returns, or `Malformed` where it raises. */
  function HostInfo(output: string): Result<map<string, string>> {
    var body := HostBody(output);
    if HostWellFormed(body) then Ok(Assigned(HostItems(body))) else Malformed
  }

  /** `parse_hostinfo`: one pass over the body lines. The long flag is taken
      and ignored. */
  method ParseHostInfo(output: string, long: bool) returns (r: Result<map<string, string>>)
    ensures r == HostInfo(output)
  {
    var lines := SplitLines(output);
    var body := if |lines| < 2 then [] else lines[2..];
    var parsed: map<string, string> := map[];
    var i := 0;
    while i < |body|
      invariant 0 <= i <= |body|
      invariant HostWellFormed(body[..i])
      invariant parsed == Assigned(HostItems(body)[..i])
    {
      var parts := SplitOn(body[i], SEP_HOST);
      if |parts| != 2 {
        return Malformed;
      }
      AllOkStep(body, i, HostLineOk);
      AssignedPrefix(HostItems(body), i);
      var (infoDesc, infoValue) := ParseKeyValue(parts[0], parts[1]);
      assert HostItems(body)[i] == HostItem(body[i]) == Some((infoDesc, infoValue));
      parsed := parsed[infoDesc := infoValue];
      i := i + 1;
    }
    assert body[..i] == body;
    PrefixAll(HostItems(body));
    r := Ok(parsed);
  }

  /** The two header lines never matter: the result is that of the lines
      after them. */
  lemma HostInfoHeader(title: string, blank: string, rest: string)
    requires '\n' !in title && '\n' !in blank
    ensures HostBody(title + "\n" + blank + "\n" + rest) == SplitLines(rest)
  {
    var tail := blank + "\n" + rest;
    assert title + "\n" + blank + "\n" + rest == title + "\n" + tail;
    SplitLinesFirst(title, tail);
    SplitLinesFirst(blank, rest);
    DropTwo(title, blank, SplitLines(rest));
  }

  /** Dropping the first two of `[x] + ([y] + rest)` leaves `rest`. */
  lemma DropTwo<T>(x: T, y: T, rest: seq<T>)
    ensures |[x] + ([y] + rest)| >= 2 && ([x] + ([y] + rest))[2..] == rest
  {
  }

  /** Output of at most two lines has no body and gives an empty result. */
  lemma HostInfoHeaderOnly(output: string)
    requires |SplitLines(output)| <= 2
    ensures HostInfo(output) == Ok(map[])
  {
    assert Assigned(HostItems(HostBody(output))).Keys == {};
  }

  /** An empty line after the header is not skipped: it makes the parse fail. */
  lemma HostInfoEmptyLine(title: string, blank: string, rest: string)
    requires '\n' !in title && '\n' !in blank
    ensures HostInfo(title + "\n" + blank + "\n" + "\n" + rest) == Malformed
  {
    var output := title + "\n" + blank + "\n" + "\n" + rest;
    assert output == title + "\n" + blank + "\n" + ("\n" + rest);
    HostInfoHeader(title, blank, "\n" + rest);
    assert "\n" + rest == "" + "\n" + rest;
    SplitLinesFirst("", rest);
    var body := HostBody(output);
    assert body[0] == "";
    SplitOnWhole("", SEP_HOST);
    assert !HostLineOk(body[0]);
  }

  /** A body line is a raw key, `": "` and a raw value, neither holding
      `": "`; it records the normalised key and the stripped value. */
  lemma HostItemParts(line: string)
    requires |SplitOn(line, SEP_HOST)| == 2
    ensures var parts := SplitOn(line, SEP_HOST);
      line == parts[0] + SEP_HOST + parts[1] && !Contains(parts[0], SEP_HOST) && !Contains(parts[1], SEP_HOST)
      && HostItem(line) == Some((NormalizeKey(parts[0]), Strip(parts[1])))
  {
    var parts := SplitOn(line, SEP_HOST);
    SplitOnJoin(line, SEP_HOST);
    SplitOnParts(line, SEP_HOST);
    assert Join(parts[1..], SEP_HOST) == parts[1];
  }

  /** `key: value` with no colon in the key and none in the value records the
      normalised key and the stripped value. */
  lemma HostItemLine(k: string, v: string)
    requires ':' !in k && ':' !in v
    ensures HostItem(k + SEP_HOST + v) == Some((NormalizeKey(k), Strip(v)))
  {
    SplitOnFirst(k, SEP_HOST, v);
    SplitOnWhole(v, SEP_HOST);
  }

  /** Body line `i` assigns the normalised form of its key. */
  lemma HostItemAssigns(body: seq<string>, i: int, k: string)
    requires HostWellFormed(body)
    ensures Assigns(HostItems(body), i, k) <==>
      0 <= i < |body| && k == NormalizeKey(SplitOn(body[i], SEP_HOST)[0])
  {
    if 0 <= i < |body| {
      assert HostItems(body)[i] == HostItem(body[i]);
      assert HostLineOk(body[i]);
    }
  }

  /** The keys of the host information are exactly the normalised keys of
      the body lines. */
  lemma HostInfoKeys(output: string, m: map<string, string>, k: string)
    requires HostInfo(output) == Ok(m)
    ensures k in m <==> exists i :: 0 <= i < |HostBody(output)| && k == NormalizeKey(SplitOn(HostBody(output)[i], SEP_HOST)[0])
  {
    var body := HostBody(output);
    var items := HostItems(body);
    AssignedHas(items, k);
    if k in m {
      var i :| Assigns(items, i, k);
      HostItemAssigns(body, i, k);
    }
    if exists i :: 0 <= i < |body| && k == NormalizeKey(SplitOn(body[i], SEP_HOST)[0]) {
      var i :| 0 <= i < |body| && k == NormalizeKey(SplitOn(body[i], SEP_HOST)[0]);
      HostItemAssigns(body, i, k);
    }
  }

  /** Each key holds the stripped value of the last body line with that
      normalised key: a later line overwrites an earlier one. */
  lemma HostInfoLastLineWins(output: string, m: map<string, string>, i: int, k: string)
    requires HostInfo(output) == Ok(m)
    requires 0 <= i < |HostBody(output)| && k == NormalizeKey(SplitOn(HostBody(output)[i], SEP_HOST)[0])
    requires forall j :: i < j < |HostBody(output)| ==> k != NormalizeKey(SplitOn(HostBody(output)[j], SEP_HOST)[0])
    ensures k in m && m[k] == Strip(SplitOn(HostBody(output)[i], SEP_HOST)[1])
    ensures IsStripped(m[k])
  {
    var body := HostBody(output);
    var items := HostItems(body);
    HostItemAssigns(body, i, k);
    forall j | i < j < |items|
      ensures !Assigns(items, j, k)
    {
      HostItemAssigns(body, j, k);
    }
    AssignedAt(items, i, k);
    assert items[i] == HostItem(body[i]);
    assert HostLineOk(body[i]);
  }

  // ---------------------------------------------------------------------
  // `parse_vms` and `parse_runningvms`
  // ---------------------------------------------------------------------

  /** The two shapes `parse_vms` returns. */
  datatype Listing = Short(index: map<string, string>) | Long(records: map<Field, Record>)

  function Vms(output: string, long: bool): Result<Listing> {
    if long then
      match LongVms(output)
      case Ok(records) => Ok(Long(records))
      case Malformed => Malformed
    else
      match ShortVms(output)
      case Ok(index) => Ok(Short(index))
      case Malformed => Malformed
  }

  /** `parse_vms`: the long grammar when `long` is set, the short one else. */
  method ParseVms(output: string, long: bool) returns (r: Result<Listing>)
    ensures r == Vms(output, long)
  {
    if long {
      var records := ParseLongVms(output);
      r := if records.Ok? then Ok(Long(records.value)) else Malformed;
    } else {
      var index := ParseShortVms(output);
      r := if index.Ok? then Ok(Short(index.value)) else Malformed;
    }
  }

  /** `parse_runningvms`: the same parse as `parse_vms`. */
  method ParseRunningVms(output: string, long: bool) returns (r: Result<Listing>)
    ensures r == Vms(output, long)
  {
    r := ParseVms(output, long);
  }
}
