/** The patch file-name parse inside `PatchCheck`: `Regex.Match(name,
    @"(\D+?)(\d+?) \(.+?\).sql")`, unanchored, leftmost match, with group 1 taken as
    the patch label and group 2 as the patch number. A name that does not match
    still yields a key: the value of a group of a failed match is the empty string. */
module PatchName {
  import opened Wrappers
  import opened Text

  /** The regular-expression class `\d`, taken as the ASCII digits. */
  predicate IsDigit(c: char)
  {
    '0' <= c <= '9'
  }

  /** A character that a .NET string holds in one UTF-16 code unit. A regular-expression
      `.` consumes one code unit, so it cannot match a character outside the Basic
      Multilingual Plane, which takes a surrogate pair. */
  predicate IsOneCodeUnit(c: char)
  {
    c <= '\U{FFFF}'
  }

  /** The (label, number) pair the patch-run query is issued with. */
  datatype PatchKey = PatchKey(patchLabel: string, patchNumber: string)

  /** Where a match lies: group 1 is `s[start..split]`, group 2 is `s[split..end]`. */
  datatype Span = Span(start: nat, split: nat, end: nat)

  /** `.+?\).sql` can complete at `c` when matching starts at `p`: at least one
      non-newline character, then `)`, one non-newline code unit, then `sql`. */
  predicate TailAt(s: string, p: nat, c: nat)
  {
    p < c && c + 5 <= |s|
    && (forall k :: p <= k < c ==> s[k] != '\n')
    && s[c] == ')' && s[c + 1] != '\n' && IsOneCodeUnit(s[c + 1]) && OccursAt(s, c + 2, "sql")
  }

  /** The whole pattern matches at `start` with the groups ending at `split` and `end`. */
  ghost predicate IsMatchAt(s: string, start: nat, split: nat, end: nat)
  {
    && start < split < end && end + 2 <= |s|
    && (forall k :: start <= k < split ==> !IsDigit(s[k]))
    && (forall k :: split <= k < end ==> IsDigit(s[k]))
    && s[end] == ' ' && s[end + 1] == '('
    && HasTail(s, end + 2)
  }

  /** `.+?\).sql` can complete somewhere when matching starts at `p`. */
  ghost predicate HasTail(s: string, p: nat)
  {
    exists c :: TailAt(s, p, c)
  }

  /** The first digit at or after `i` (or `|s|` when there is none). */
  function FirstDigit(s: string, i: nat): (a: nat)
    requires i <= |s|
    ensures i <= a <= |s|
    ensures a < |s| ==> IsDigit(s[a])
    ensures forall k :: i <= k < a ==> !IsDigit(s[k])
    decreases |s| - i
  {
    if i == |s| || IsDigit(s[i]) then i else FirstDigit(s, i + 1)
  }

  /** The end of the run of digits that starts at `a`. */
  function DigitRunEnd(s: string, a: nat): (b: nat)
    requires a <= |s|
    ensures a <= b <= |s|
    ensures b < |s| ==> !IsDigit(s[b])
    ensures forall k :: a <= k < b ==> IsDigit(s[k])
    decreases |s| - a
  {
    if a == |s| || !IsDigit(s[a]) then a else DigitRunEnd(s, a + 1)
  }

  /** Whether `.+?\).sql` can complete at some `c' >= c`, given that `s[p..c-1]`
      holds no newline. */
  function TailFrom(s: string, p: nat, c: nat): (b: bool)
    requires p < c
    requires forall k :: p <= k < c - 1 && k < |s| ==> s[k] != '\n'
    ensures b <==> exists c' :: c <= c' && TailAt(s, p, c')
    decreases |s| - c
  {
    if c + 5 > |s| then
      assert forall c' :: c <= c' ==> !TailAt(s, p, c');
      false
    else if s[c - 1] == '\n' then
      assert forall c' :: c <= c' ==> !TailAt(s, p, c') by {
        forall c' | c <= c' ensures !TailAt(s, p, c') {
          assert p <= c - 1 < c';
        }
      }
      false
    else if s[c] == ')' && s[c + 1] != '\n' && IsOneCodeUnit(s[c + 1]) && OccursAt(s, c + 2, "sql") then
      assert TailAt(s, p, c);
      true
    else
      var b := TailFrom(s, p, c + 1);
      assert !TailAt(s, p, c);
      assert (exists c' :: c <= c' && TailAt(s, p, c')) <==> (exists c' :: c + 1 <= c' && TailAt(s, p, c'));
      b
  }

  /** The match attempt at one start position. The lazy groups have no choice to
      make: group 1 runs to the first digit and group 2 to the end of that digit run,
      because the character after group 2 must be a space. */
  function MatchAt(s: string, i: nat): (r: Option<Span>)
    ensures r.Some? ==> r.value.start == i && IsMatchAt(s, i, r.value.split, r.value.end)
    ensures r.Some? ==> forall a, b :: IsMatchAt(s, i, a, b) ==> a == r.value.split && b == r.value.end
    ensures r.None? ==> forall a, b :: !IsMatchAt(s, i, a, b)
  {
    if i >= |s| || IsDigit(s[i]) then None
    else
      var a := FirstDigit(s, i);
      var b := DigitRunEnd(s, a);
      assert forall a', b' :: IsMatchAt(s, i, a', b') ==> a' == a && b' == b by {
        forall a', b' | IsMatchAt(s, i, a', b') ensures a' == a && b' == b {
          GroupsAreForced(s, i, a', b');
        }
      }
      if a < |s| && b + 2 <= |s| && s[b] == ' ' && s[b + 1] == '(' && TailFrom(s, b + 2, b + 3) then
        Some(Span(i, a, b))
      else None
  }

  /** Any match at `i` has its groups split at the first digit and ending at the
      end of that digit run. */
  lemma GroupsAreForced(s: string, i: nat, a: nat, b: nat)
    requires IsMatchAt(s, i, a, b)
    ensures a == FirstDigit(s, i)
    ensures b == DigitRunEnd(s, a)
  {
    FirstDigitAt(s, i, a);
    DigitRunEndAt(s, a, b);
  }

  /** A digit at `a` with none between `i` and `a` is the first digit from `i`. */
  lemma {:induction false} FirstDigitAt(s: string, i: nat, a: nat)
    requires i <= a < |s| && IsDigit(s[a])
    requires forall k :: i <= k < a ==> !IsDigit(s[k])
    ensures FirstDigit(s, i) == a
    decreases a - i
  {
    if i < a {
      FirstDigitAt(s, i + 1, a);
    }
  }

  /** A non-digit at `b` after an unbroken digit run from `a` ends that run. */
  lemma {:induction false} DigitRunEndAt(s: string, a: nat, b: nat)
    requires a <= b < |s| && !IsDigit(s[b])
    requires forall k :: a <= k < b ==> IsDigit(s[k])
    ensures DigitRunEnd(s, a) == b
    decreases b - a
  {
    if a < b {
      DigitRunEndAt(s, a + 1, b);
    }
  }

  /** The leftmost match at or after `i`. */
  function MatchFrom(s: string, i: nat): (r: Option<Span>)
    requires i <= |s|
    ensures r.Some? ==> i <= r.value.start && IsMatchAt(s, r.value.start, r.value.split, r.value.end)
    ensures r.Some? ==> forall st, a, b :: i <= st < r.value.start ==> !IsMatchAt(s, st, a, b)
    ensures r.Some? ==> forall a, b :: IsMatchAt(s, r.value.start, a, b) ==> a == r.value.split && b == r.value.end
    ensures r.None? ==> forall st, a, b :: i <= st ==> !IsMatchAt(s, st, a, b)
    decreases |s| - i
  {
    if i == |s| then None
    else
      match MatchAt(s, i)
      case Some(m) => Some(m)
      case None => MatchFrom(s, i + 1)
  }

  /** The label and number of a patch file name. A name the pattern does not match
      gives the empty label and number: the guard before the groups are read tests
      only that the group collection is non-empty, which holds for a failed match too. */
  function ParsePatchName(name: string): (key: PatchKey)
    ensures key.patchLabel == [] <==> key.patchNumber == []
    ensures forall k :: 0 <= k < |key.patchLabel| ==> !IsDigit(key.patchLabel[k])
    ensures forall k :: 0 <= k < |key.patchNumber| ==> IsDigit(key.patchNumber[k])
  {
    match MatchFrom(name, 0)
    case Some(m) => PatchKey(name[m.start..m.split], name[m.split..m.end])
    case None => PatchKey("", "")
  }

  /** The key is empty exactly when the pattern matches nowhere in the name. */
  lemma ParseEmptyIffNoMatch(name: string)
    ensures ParsePatchName(name).patchLabel == [] <==> forall st, a, b :: !IsMatchAt(name, st, a, b)
  {
    match MatchFrom(name, 0)
    case Some(m) =>
      assert IsMatchAt(name, m.start, m.split, m.end);
    case None =>
  }

  /** The key is read from the leftmost match: when the pattern first matches at
      `st` with groups ending at `a` and `b`, the key is those two groups, and the
      label is the whole run of non-digits before the number. */
  lemma ParseGivesLeftmostMatch(name: string, st: nat, a: nat, b: nat)
    requires IsMatchAt(name, st, a, b)
    requires forall st': nat, a': nat, b': nat :: st' < st ==> !IsMatchAt(name, st', a', b')
    ensures ParsePatchName(name) == PatchKey(name[st..a], name[a..b])
    ensures st == 0 || IsDigit(name[st - 1])
  {
    var m := MatchFrom(name, 0);
    assert m.Some? && m.value.start == st;
    if st > 0 {
      MatchExtendsLeft(name, st, a, b);
    }
  }

  /** A match whose start follows a non-digit also matches one position earlier,
      with the same groups' ends: group 1 is a lazy run of non-digits. */
  lemma MatchExtendsLeft(s: string, st: nat, a: nat, b: nat)
    requires 0 < st && IsMatchAt(s, st, a, b)
    ensures !IsDigit(s[st - 1]) ==> IsMatchAt(s, st - 1, a, b)
  {
  }

  /** A name the pattern does not match is not rejected: it yields the empty key. */
  lemma ParseWithoutMatch(name: string)
    requires forall st, a, b :: !IsMatchAt(name, st, a, b)
    ensures ParsePatchName(name) == PatchKey("", "")
  {
  }

  /** `DDL100 (add column).sql` is the patch with label `DDL` and number `100`. */
  lemma ParseConventionalName(name: string)
    requires name == "DDL100 (add column).sql"
    ensures ParsePatchName(name) == PatchKey("DDL", "100")
  {
    ConventionalNameMatches(name);
    ParseGivesLeftmostMatch(name, 0, 3, 6);
  }

  /** `DDL100 (add column).sql` matches at its start, with the groups `DDL` and `100`. */
  lemma ConventionalNameMatches(name: string)
    requires name == "DDL100 (add column).sql"
    ensures IsMatchAt(name, 0, 3, 6)
    ensures name[0..3] == "DDL" && name[3..6] == "100"
  {
    assert TailAt(name, 8, 18) by {
      assert OccursAt(name, 20, "sql");
    }
  }

  /** `DDLabc.sql` breaks the naming convention (no digits, no description) and is
      looked up with the empty key rather than rejected. */
  lemma ParseNonConformingName(name: string)
    requires name == "DDLabc.sql"
    ensures ParsePatchName(name) == PatchKey("", "")
  {
    assert forall k :: 0 <= k < |name| ==> !IsDigit(name[k]);
    ParseWithoutMatch(name);
  }

  /** The `.` before `sql` consumes one UTF-16 code unit: when the character after `)`
      lies outside the Basic Multilingual Plane the pattern fails, and the name is
      looked up with the empty key. */
  lemma AstralBeforeSqlHasNoMatch(name: string)
    requires name == "DDL1 (x)\U{1F600}sql"
    ensures ParsePatchName(name) == PatchKey("", "")
  {
    forall p: nat, c: nat ensures !TailAt(name, p, c) {
      if c + 5 <= |name| && name[c] == ')' {
        assert c == 7;
        assert !IsOneCodeUnit(name[c + 1]);
      }
    }
    ParseWithoutMatch(name);
  }
}
