/**
 The template grammar of a fast-path rule: the check constraints of
 migrations/versions/0019_fast_path_rule.py, which count characters, and the checks of
 src/brain/core/fast_path.py, which index them.
 */
module Template {
  import opened Wrappers
  import opened Text

  const MinLiteral := 12
  const MinTemplate := 15
  const MaxTemplate := 200
  const MaxName := 60

  // ------------------------------------------------------------ the functions the constraints use

  /** `replace(s, c, '')`. */
  function Without(s: string, c: char): string {
    if s == "" then "" else (if s[0] == c then "" else [s[0]]) + Without(s[1..], c)
  }

  /** `position(c in s)`, counting from one, and nought for a character that is not there. */
  function Position(c: char, s: string): nat {
    if IndexOfChar(s, c) < |s| then IndexOfChar(s, c) + 1 else 0
  }

  /** `substring(s from start for count)`, which raises for a negative count. */
  function Substring(s: string, start: int, count: int): Option<string> {
    if count < 0 then None
    else Some(s[Within(start - 1, |s|)..Within(start - 1 + count, |s|)])
  }

  function Within(i: int, n: nat): (k: nat)
    ensures k <= n && (0 <= i <= n ==> k == i)
  {
    if i < 0 then 0 else if i > n then n else i
  }

  predicate IsName(s: string) {
    && s != "" && 'a' <= s[0] <= 'z'
    && forall i | 0 <= i < |s| :: 'a' <= s[i] <= 'z' || '0' <= s[i] <= '9' || s[i] == '_'
  }

  // ------------------------------------------------------------ the row

  predicate LongEnough(template: string) {
    MinTemplate <= |template| <= MaxTemplate
  }

  predicate OpensOneHole(template: string) {
    |template| - |Without(template, '{')| == 1
  }

  predicate ClosesOneHole(template: string) {
    |template| - |Without(template, '}')| == 1
  }

  predicate TheRightWayRound(template: string) {
    Position('{', template) < Position('}', template)
  }

  predicate NamesTheSlot(template: string, slot: string) {
    Substring(template, Position('{', template) + 1, Position('}', template) - Position('{', template) - 1)
      == Some(slot)
  }

  predicate IsNotAllHole(template: string) {
    |template| - (Position('}', template) - Position('{', template) + 1) >= MinLiteral
  }

  /** The columns' widths and every constraint on the two of them but the length floor. */
  predicate RowAcceptedButForItsLength(template: string, slot: string) {
    && |template| <= MaxTemplate && |slot| <= MaxName
    && IsName(slot)
    && OpensOneHole(template) && ClosesOneHole(template) && TheRightWayRound(template)
    && NamesTheSlot(template, slot) && IsNotAllHole(template)
  }

  predicate RowAccepted(template: string, slot: string) {
    RowAcceptedButForItsLength(template, slot) && LongEnough(template)
  }

  // ------------------------------------------------------------ the grammar

  predicate BraceFree(s: string) {
    '{' !in s && '}' !in s
  }

  function Rebuild(before: string, slot: string, after: string): string {
    before + "{" + slot + "}" + after
  }

  /** A template made of these three parts. */
  predicate Parts(template: string, before: string, slot: string, after: string) {
    && template == Rebuild(before, slot, after)
    && BraceFree(before) && BraceFree(after)
    && IsName(slot) && |slot| <= 60
    && |before| + |after| >= 12 && |template| <= 200
  }

  /** What the reader splits a template into, on its first opening and its first closing brace. */
  function Split(template: string): (string, string, string)
    requires '{' in template && '}' in template
    requires IndexOfChar(template, '{') < IndexOfChar(template, '}')
  {
    var open, close := IndexOfChar(template, '{'), IndexOfChar(template, '}');
    (template[..open], template[open + 1..close], template[close + 1..])
  }

  lemma Found(s: string, c: char)
    ensures c in s <==> IndexOfChar(s, c) < |s|
  {
    if c in s {
      var i :| 0 <= i < |s| && s[i] == c;
    }
  }

  /** Exactly one: the first is there, and nothing after it is another. */
  lemma {:induction false} OneOf(s: string, c: char)
    ensures |s| - |Without(s, c)| >= 0
    ensures |s| - |Without(s, c)| == 0 <==> c !in s
    ensures |s| - |Without(s, c)| == 1 <==> c in s && c !in s[IndexOfChar(s, c) + 1..]
  {
    if s != "" {
      OneOf(s[1..], c);
      assert c in s <==> s[0] == c || c in s[1..];
      if s[0] != c && c in s[1..] {
        Found(s[1..], c);
        assert s[IndexOfChar(s, c) + 1..] == s[1..][IndexOfChar(s[1..], c) + 1..];
      }
    }
  }

  lemma NameIsBraceFree(slot: string)
    requires IsName(slot)
    ensures BraceFree(slot)
  {
  }

  /** A rebuilt template splits into the parts it was built from, so the split is the only one. */
  lemma SplitOfRebuilt(before: string, slot: string, after: string)
    requires BraceFree(before) && BraceFree(slot)
    ensures var t := Rebuild(before, slot, after);
            && IndexOfChar(t, '{') == |before| && IndexOfChar(t, '}') == |before| + 1 + |slot| < |t|
            && Split(t) == (before, slot, after)
  {
    var t := Rebuild(before, slot, after);
    assert t == before + ['{'] + (slot + "}" + after);
    IndexAfter(before, '{', slot + "}" + after);
    assert t == (before + "{" + slot) + ['}'] + after;
    IndexAfter(before + "{" + slot, '}', after);
    assert t[..|before|] == before && t[|before| + 1..|before| + 1 + |slot|] == slot;
    assert t[|before| + 1 + |slot| + 1..] == after;
  }

  /** Splitting and rebuilding give the template back. */
  lemma {:induction false} RebuildOfSplit(template: string)
    requires '{' in template && '}' in template
    requires IndexOfChar(template, '{') < IndexOfChar(template, '}')
    ensures var (before, slot, after) := Split(template); Rebuild(before, slot, after) == template
  {
    Found(template, '{');
    Found(template, '}');
    var open, close := IndexOfChar(template, '{'), IndexOfChar(template, '}');
    assert template == template[..open] + [template[open]] + template[open + 1..close] + [template[close]] + template[close + 1..];
  }

  lemma {:induction false} AcceptedHasParts(template: string, slot: string)
    requires RowAcceptedButForItsLength(template, slot)
    ensures '{' in template && '}' in template && IndexOfChar(template, '{') < IndexOfChar(template, '}')
    ensures Split(template).1 == slot && Parts(template, Split(template).0, slot, Split(template).2)
  {
    OneOf(template, '{');
    OneOf(template, '}');
    Found(template, '{');
    Found(template, '}');
    var open, close := IndexOfChar(template, '{'), IndexOfChar(template, '}');
    var (before, middle, after) := Split(template);
    RebuildOfSplit(template);
    assert before == template[..open] && '}' !in before;
    assert after == template[open + 1..][close - open..] && '{' !in after;
    assert '}' !in after;
  }

  /** The two braces of a rebuilt template are counted once each and stand where they were put. */
  lemma BracesOfParts(template: string, before: string, slot: string, after: string)
    requires Parts(template, before, slot, after)
    ensures OpensOneHole(template) && ClosesOneHole(template)
    ensures Position('{', template) == |before| + 1 && Position('}', template) == |before| + |slot| + 2
  {
    NameIsBraceFree(slot);
    SplitOfRebuilt(before, slot, after);
    OneOf(template, '{');
    OneOf(template, '}');
    assert template[|before| + 1..] == slot + "}" + after;
    assert template[|before| + 1 + |slot| + 1..] == after;
  }

  lemma PartsAreAccepted(template: string, before: string, slot: string, after: string)
    requires Parts(template, before, slot, after)
    ensures RowAccepted(template, slot)
  {
    BracesOfParts(template, before, slot, after);
    assert template[|before| + 1..|before| + 1 + |slot|] == slot;
  }

  /**
   The constraints count, and what they accept is a grammar: one way of cutting the template into
   text, `{`, the slot, `}`, and text, with no other brace and enough text.
   */
  lemma TheCountsAreTheGrammar(template: string, slot: string)
    ensures RowAccepted(template, slot) <==> exists before, after :: Parts(template, before, slot, after)
  {
    if RowAccepted(template, slot) {
      AcceptedHasParts(template, slot);
    }
    if exists before, after :: Parts(template, before, slot, after) {
      var before, after :| Parts(template, before, slot, after);
      PartsAreAccepted(template, before, slot, after);
    }
  }

  /** There is one cut only, slot included. */
  lemma OneCut(template: string, a: string, s: string, b: string, a': string, s': string, b': string)
    requires Parts(template, a, s, b) && Parts(template, a', s', b')
    ensures a == a' && s == s' && b == b'
  {
    NameIsBraceFree(s);
    NameIsBraceFree(s');
    SplitOfRebuilt(a, s, b);
    SplitOfRebuilt(a', s', b');
  }

  /** The lower bound on the length asks nothing the other constraints do not. */
  lemma TheLengthFloorIsImplied(template: string, slot: string)
    requires RowAcceptedButForItsLength(template, slot)
    ensures RowAccepted(template, slot)
  {
    AcceptedHasParts(template, slot);
    PartsAreAccepted(template, Split(template).0, slot, Split(template).2);
  }

  // ------------------------------------------------------------ the checks in the application

  datatype Refusal =
    | NotOneHole(opens: nat, closes: nat)
    | ClosesBeforeItOpens
    | NamesAnotherSlot(named: string)
    | TooLittleText(length: nat)

  function Times(s: string, c: char): nat {
    if s == "" then 0 else (if s[0] == c then 1 else 0) + Times(s[1..], c)
  }

  /** What `str.strip` takes off. */
  predicate IsSpace(c: char) {
    || '\U{0009}' <= c <= '\U{000D}' || '\U{001C}' <= c <= ' ' || c == '\U{0085}' || c == '\U{00A0}'
    || c == '\U{1680}' || '\U{2000}' <= c <= '\U{200A}' || c == '\U{2028}' || c == '\U{2029}'
    || c == '\U{202F}' || c == '\U{205F}' || c == '\U{3000}'
  }

  function Stripped(s: string): (r: string)
    ensures |r| <= |s|
    ensures r != "" ==> !IsSpace(r[0]) && !IsSpace(r[|r| - 1])
  {
    if s == "" then ""
    else if IsSpace(s[0]) then Stripped(s[1..])
    else if IsSpace(s[|s| - 1]) then Stripped(s[..|s| - 1])
    else s
  }

  /** What is stripped off is white space at the two ends and nothing else. */
  lemma {:induction false} OnlySpacesAreStripped(s: string) returns (i: nat, j: nat)
    ensures i <= j <= |s| && Stripped(s) == s[i..j]
    ensures forall k | 0 <= k < i || j <= k < |s| :: IsSpace(s[k])
  {
    if s != "" && IsSpace(s[0]) {
      var a, b := OnlySpacesAreStripped(s[1..]);
      i, j := a + 1, b + 1;
      assert s[1..][a..b] == s[i..j];
      forall k | 0 <= k < i || j <= k < |s| ensures IsSpace(s[k]) {
        assert k > 0 ==> s[k] == s[1..][k - 1];
      }
    } else if s != "" && IsSpace(s[|s| - 1]) {
      i, j := OnlySpacesAreStripped(s[..|s| - 1]);
      assert s[..|s| - 1][i..j] == s[i..j];
      forall k | 0 <= k < i || j <= k < |s| ensures IsSpace(s[k]) {
        assert k < |s| - 1 ==> s[k] == s[..|s| - 1][k];
      }
    } else {
      i, j := 0, |s|;
    }
  }

  /** `check_template`: a hole is counted, ordered, named, and left with enough text around it. */
  function CheckTemplate(template: string, slot: string): Result<(), Refusal> {
    var opens, closes := Times(template, '{'), Times(template, '}');
    if opens != 1 || closes != 1 then Err(NotOneHole(opens, closes))
    else
      TimesFound(template, '{');
      TimesFound(template, '}');
      var open, close := IndexOfChar(template, '{'), IndexOfChar(template, '}');
      if close < open then Err(ClosesBeforeItOpens)
      else
        var named := template[open + 1..close];
        if named != slot then Err(NamesAnotherSlot(named))
        else
          var literal := Stripped(template[..open] + template[close + 1..]);
          if |literal| < MinLiteral then Err(TooLittleText(|literal|)) else Ok(())
  }

  lemma {:induction false} TimesFound(s: string, c: char)
    ensures Times(s, c) == |s| - |Without(s, c)|
    ensures Times(s, c) > 0 ==> IndexOfChar(s, c) < |s|
  {
    if s != "" {
      TimesFound(s[1..], c);
    }
  }

  /** The two fields of a rule the application will load. */
  predicate RuleAccepted(template: string, slot: string) {
    && MinTemplate <= |template| <= MaxTemplate
    && 1 <= |slot| <= MaxName && IsName(slot)
    && CheckTemplate(template, slot).Ok?
  }

  /** The text of a row around its hole. */
  function Literal(template: string): string
    requires '{' in template && '}' in template
    requires IndexOfChar(template, '{') < IndexOfChar(template, '}')
  {
    Split(template).0 + Split(template).2
  }

  /**
   The application loads exactly the rows the table accepts whose text is long enough once the
   spaces at its two ends are off; the table measures it with them on.
   */
  lemma TheTableIsWeakerByItsSpaces(template: string, slot: string)
    ensures RuleAccepted(template, slot) ==> RowAccepted(template, slot)
    ensures RowAccepted(template, slot) ==>
              && '{' in template && '}' in template && IndexOfChar(template, '{') < IndexOfChar(template, '}')
              && (RuleAccepted(template, slot) <==> |Stripped(Literal(template))| >= 12)
  {
    CheckedIsCounted(template, slot);
    if RowAccepted(template, slot) {
      AcceptedHasParts(template, slot);
    }
  }

  /** The application's check, in the constraints' terms. */
  lemma CheckedIsCounted(template: string, slot: string)
    ensures CheckTemplate(template, slot).Ok? <==>
            && OpensOneHole(template) && ClosesOneHole(template) && TheRightWayRound(template)
            && NamesTheSlot(template, slot)
            && '{' in template && '}' in template && IndexOfChar(template, '{') < IndexOfChar(template, '}')
            && |Stripped(Literal(template))| >= MinLiteral
  {
    TimesFound(template, '{');
    TimesFound(template, '}');
    Found(template, '{');
    Found(template, '}');
    if OpensOneHole(template) && ClosesOneHole(template) {
      assert template[IndexOfChar(template, '{')] == '{' && template[IndexOfChar(template, '}')] == '}';
    }
  }

  /** A hole after nothing but spaces, twelve or more, is kept by the table and stops the application's load. */
  lemma SpacesAreText(spaces: string)
    requires 12 <= |spaces| <= 197 && forall i | 0 <= i < |spaces| :: IsSpace(spaces[i])
    ensures RowAccepted(Rebuild(spaces, "a", ""), "a") && !RuleAccepted(Rebuild(spaces, "a", ""), "a")
  {
    var t := Rebuild(spaces, "a", "");
    assert BraceFree(spaces) && IsName("a");
    PartsAreAccepted(t, spaces, "a", "");
    SplitOfRebuilt(spaces, "a", "");
    TheTableIsWeakerByItsSpaces(t, "a");
    AllSpaces(spaces);
    assert Literal(t) == spaces + "" == spaces;
  }

  lemma {:induction false} AllSpaces(s: string)
    requires forall i | 0 <= i < |s| :: IsSpace(s[i])
    ensures Stripped(s) == ""
  {
    if s != "" {
      AllSpaces(s[1..]);
    }
  }
}
