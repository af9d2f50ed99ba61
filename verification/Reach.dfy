/**
 Capabilities, scopes and the set of them somebody holds: the vocabulary of
 src/brain/core/entitlement.py and src/brain/core/scope.py, and the SQL functions
 `gate.capability_covers` and `gate.entitlement_scope_for` that restate it.
 */
module Reach {
  import opened Wrappers

  /** A clause's value: nothing, one text, or a tuple of texts. */
  datatype Value = NoValue | Text(text: string) | Texts(texts: seq<string>)

  datatype Op = Eq | In | Prefix | Any

  /** One field test of a scope. */
  datatype Clause = Clause(field: string, op: Op, value: Value)

  /** A projected record: the fields that are present, rendered as text. */
  type Record = map<string, string>

  /** A scope is a conjunction, so only which clauses it holds matters. */
  type Scope = set<Clause>

  datatype Grant = Grant(capability: string, scope: Scope)

  /** An `EntitlementSet`: who, what, and until when. */
  datatype Reach = Reach(principal: string, grants: seq<Grant>, notAfter: Option<int>)

  predicate StartsWith(s: string, prefix: string) {
    |prefix| <= |s| && s[..|prefix|] == prefix
  }

  predicate ClauseMatches(c: Clause, row: Record) {
    if c.op.Any? then true
    else if c.field !in row then false
    else
      var actual := row[c.field];
      match c.op
      case Eq => c.value == Text(actual)
      case In => c.value.Texts? && actual in c.value.texts
      case Prefix => c.value.Text? && StartsWith(actual, c.value.text)
      case Any => true
  }

  predicate Matches(scope: Scope, row: Record) {
    forall c | c in scope :: ClauseMatches(c, row)
  }

  predicate IsWildcard(capability: string) {
    |capability| >= 2 && capability[|capability| - 2..] == ".*"
  }

  /** Only a trailing `.*` expands, and it expands to a prefix that keeps the dot. */
  predicate Covers(wide: string, narrow: string) {
    || wide == narrow
    || (IsWildcard(wide) && StartsWith(narrow, wide[..|wide| - 1]))
  }

  predicate Expired(r: Reach, now: int) {
    r.notAfter.Some? && r.notAfter.value <= now
  }

  /** Whether any of these grants covers the capability. */
  predicate Named(grants: seq<Grant>, capability: string) {
    exists g | g in grants :: Covers(g.capability, capability)
  }

  /** The clauses of every grant covering the capability, conjoined. */
  function ClausesFor(grants: seq<Grant>, capability: string): Scope {
    set g, c | g in grants && Covers(g.capability, capability) && c in g.scope :: c
  }

  /** The scope a reach holds a capability in at an instant, or None when it holds it nowhere. */
  function ScopeFor(r: Reach, capability: string, now: int): Option<Scope> {
    if Expired(r, now) || !Named(r.grants, capability) then None
    else Some(ClausesFor(r.grants, capability))
  }

  /** A reach with its own bound set aside, as the left side of an intersection is read. */
  function Unbounded(r: Reach): Reach {
    r.(notAfter := None)
  }

  /** Whether somebody with this reach sees this record under this capability at this instant. */
  predicate Admits(r: Reach, capability: string, row: Record, now: int) {
    var scope := ScopeFor(r, capability, now);
    scope.Some? && Matches(scope.value, row)
  }

  /** The tighter of two bounds; an absent bound extends nothing. */
  function Least(a: Option<int>, b: Option<int>): Option<int> {
    match (a, b)
    case (None, _) => b
    case (_, None) => a
    case (Some(x), Some(y)) => Some(if x <= y then x else y)
  }

  lemma LeastExpires(a: Option<int>, b: Option<int>, now: int)
    ensures (Least(a, b).Some? && Least(a, b).value <= now)
       <==> (a.Some? && a.value <= now) || (b.Some? && b.value <= now)
  {
  }

  // ------------------------------------------------------------ what the words mean

  /** A pattern covers itself, and one ending in `.*` everything that starts with what is before the star. */
  lemma CoversExactly(wide: string, narrow: string)
    ensures Covers(wide, narrow) <==>
            || wide == narrow
            || exists stem, rest :: wide == stem + ".*" && narrow == stem + "." + rest
  {
    if IsWildcard(wide) && StartsWith(narrow, wide[..|wide| - 1]) {
      var stem, rest := wide[..|wide| - 2], narrow[|wide| - 1..];
      assert wide == stem + ".*" && wide[..|wide| - 1] == stem + ".";
      assert narrow == stem + "." + rest;
    }
    if stem, rest :| wide == stem + ".*" && narrow == stem + "." + rest {
      assert wide[|wide| - 2..] == ".*" && wide[..|wide| - 1] == stem + ".";
      assert narrow[..|stem| + 1] == stem + ".";
    }
  }

  /** Holding an entity is not holding its fields. */
  lemma AnEntityIsNotItsFields(entity: string, field: string)
    requires |entity| < 2 || entity[|entity| - 2..] != ".*"
    ensures !Covers(entity, entity + "." + field) && Covers(entity + ".*", entity + "." + field)
  {
    assert entity != entity + "." + field;
    CoversExactly(entity + ".*", entity + "." + field);
  }

  /** What each kind of clause admits, on a record that has its field. */
  lemma WhatAClauseAdmits(field: string, value: string, values: seq<string>, row: Record)
    ensures ClauseMatches(Clause(field, Any, NoValue), row)
    ensures ClauseMatches(Clause(field, Eq, Text(value)), row) <==> field in row && row[field] == value
    ensures ClauseMatches(Clause(field, In, Texts(values)), row) <==>
            field in row && exists i | 0 <= i < |values| :: values[i] == row[field]
    ensures ClauseMatches(Clause(field, Prefix, Text(value)), row) <==>
            field in row && exists rest :: row[field] == value + rest
    ensures !ClauseMatches(Clause(field, Eq, NoValue), row) && !ClauseMatches(Clause(field, In, Texts([])), row)
  {
    if field in row && StartsWith(row[field], value) {
      assert row[field] == value + row[field][|value|..];
    }
  }

  /** A record with some of its fields left out is admitted by no scope that does not admit it whole. */
  lemma AProjectionNeverWidens(scope: Scope, part: Record, whole: Record)
    requires part.Keys <= whole.Keys && forall f | f in part :: part[f] == whole[f]
    requires Matches(scope, part)
    ensures Matches(scope, whole)
  {
    forall c | c in scope ensures ClauseMatches(c, whole) {
      assert ClauseMatches(c, part);
    }
  }

  /** Admission from the grants themselves: unexpired, something covers it, and all that covers it agrees. */
  lemma AdmitsFromTheGrants(r: Reach, capability: string, row: Record, now: int)
    ensures Admits(r, capability, row, now) <==>
            && (r.notAfter.None? || now < r.notAfter.value)
            && (exists g | g in r.grants :: Covers(g.capability, capability))
            && (forall g, c | g in r.grants && Covers(g.capability, capability) && c in g.scope :: ClauseMatches(c, row))
  {
    if Admits(r, capability, row, now) {
      forall g, c | g in r.grants && Covers(g.capability, capability) && c in g.scope ensures ClauseMatches(c, row) {
        assert c in ClausesFor(r.grants, capability);
      }
    }
  }

  // ------------------------------------------------------------ covering is a forest order

  lemma CoversTransitive(p: string, q: string, r: string)
    requires Covers(p, q) && Covers(q, r)
    ensures Covers(p, r)
  {
    if p != q && q != r {
      var stem := p[..|p| - 1];
      assert stem[|stem| - 1] == '.' && q[|q| - 1] == '*';
      assert q[..|stem|] == stem;
      assert |stem| < |q|;
      assert r[..|stem|] == q[..|q| - 1][..|stem|] == stem;
    }
  }

  /** Of two patterns covering one capability, one covers the other. */
  lemma CoversChain(p: string, q: string, capability: string)
    requires Covers(p, capability) && Covers(q, capability)
    ensures Covers(p, q) || Covers(q, p)
  {
    if p != capability && q != capability {
      if |p| <= |q| {
        assert q[..|p| - 1] == q[..|q| - 1][..|p| - 1] == capability[..|q| - 1][..|p| - 1] == capability[..|p| - 1];
      } else {
        assert p[..|q| - 1] == p[..|p| - 1][..|q| - 1] == capability[..|p| - 1][..|q| - 1] == capability[..|q| - 1];
      }
    }
  }

  /** The narrowest of the patterns that cover a capability: every other one covers it. */
  lemma Narrowest(grants: seq<Grant>, capability: string) returns (g: Grant)
    requires Named(grants, capability)
    ensures g in grants && Covers(g.capability, capability)
    ensures forall h | h in grants && Covers(h.capability, capability) :: Covers(h.capability, g.capability)
  {
    g :| g in grants && Covers(g.capability, capability);
    var i := 0;
    while i < |grants|
      invariant 0 <= i <= |grants|
      invariant g in grants && Covers(g.capability, capability)
      invariant forall h | h in grants[..i] && Covers(h.capability, capability) ::
          Covers(h.capability, g.capability)
    {
      var h := grants[i];
      if Covers(h.capability, capability) {
        CoversChain(h.capability, g.capability, capability);
        if !Covers(h.capability, g.capability) {
          forall k | k in grants[..i] && Covers(k.capability, capability)
            ensures Covers(k.capability, h.capability)
          {
            CoversTransitive(k.capability, g.capability, h.capability);
          }
          g := h;
        }
      }
      i := i + 1;
    }
  }

  /** What covers a pattern covers everything the pattern covers. */
  lemma ClausesForGrows(grants: seq<Grant>, pattern: string, capability: string)
    requires Covers(pattern, capability)
    ensures Named(grants, pattern) ==> Named(grants, capability)
    ensures ClausesFor(grants, pattern) <= ClausesFor(grants, capability)
  {
    forall g | g in grants && Covers(g.capability, pattern)
      ensures Covers(g.capability, capability)
    {
      CoversTransitive(g.capability, pattern, capability);
    }
  }
}
