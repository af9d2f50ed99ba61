/**
 `obs.audit_entry_hash`: the material an audit entry is digested from, and why no two different
 entries share it. The digest itself is a parameter, a function from bytes to text.
 */
module AuditHash {
  import opened Wrappers
  import opened Text
  import opened Utf8

  /** A jsonb value as `->>` reads it: text, something rendered as text, or a null. */
  datatype Json = JString(text: string) | JRendered(rendered: string) | JNull

  datatype Detail = Detail(key: string, value: Json)

  /** A jsonb object in its stored order, which is not the order it was written in. */
  type Details = seq<Detail>

  predicate IsObject(details: Details) {
    forall i, j | 0 <= i < j < |details| :: details[i].key != details[j].key
  }

  /** Everything the digest covers. */
  datatype Content = Content(prevHash: string, seqNo: nat, at: Instant, actor: string, action: string,
                             subject: string, entHash: string, trace: string, details: Details)

  predicate IsContent(c: Content) {
    IsInstant(c.at) && IsObject(c.details)
  }

  type Digest = seq<int> -> string

  // ------------------------------------------------------------ the keys, in one order

  function Insert(key: string, sorted: seq<string>, before: (string, string) -> bool): seq<string> {
    if sorted == [] || before(key, sorted[0]) then [key] + sorted
    else [sorted[0]] + Insert(key, sorted[1..], before)
  }

  function Sort(keys: seq<string>, before: (string, string) -> bool): seq<string> {
    if keys == [] then [] else Insert(keys[0], Sort(keys[1..], before), before)
  }

  function Keys(details: Details): (keys: seq<string>)
    ensures |keys| == |details| && forall i | 0 <= i < |keys| :: keys[i] == details[i].key
  {
    seq(|details|, i requires 0 <= i < |details| => details[i].key)
  }

  /** `ORDER BY k COLLATE "C"`: by the bytes of the encoding. */
  function KeysInSql(details: Details): (keys: seq<string>)
    ensures forall k :: k in keys <==> k in Keys(details)
  {
    SortKeeps(Keys(details), BytesPrecede);
    Sort(Keys(details), BytesPrecede)
  }

  /** `sorted(details)`: by code point. */
  function KeysInPython(details: Details): seq<string> {
    Sort(Keys(details), CodePointsPrecede)
  }

  lemma SortBySameOrder(keys: seq<string>, one: (string, string) -> bool, other: (string, string) -> bool)
    requires forall s, t :: one(s, t) == other(s, t)
    ensures Sort(keys, one) == Sort(keys, other)
  {
    if keys != [] {
      SortBySameOrder(keys[1..], one, other);
      InsertBySameOrder(keys[0], Sort(keys[1..], one), one, other);
    }
  }

  lemma InsertBySameOrder(key: string, sorted: seq<string>,
                          one: (string, string) -> bool, other: (string, string) -> bool)
    requires forall s, t :: one(s, t) == other(s, t)
    ensures Insert(key, sorted, one) == Insert(key, sorted, other)
  {
  }

  /** The database and the application hash one entry's keys in one order. */
  lemma SqlAndPythonSortAlike(details: Details)
    ensures KeysInSql(details) == KeysInPython(details)
  {
    forall s, t ensures BytesPrecede(s, t) == CodePointsPrecede(s, t) {
      ByteOrderIsCodePointOrder(s, t);
    }
    SortBySameOrder(Keys(details), BytesPrecede, CodePointsPrecede);
  }

  // ------------------------------------------------------------ the material

  function Find(details: Details, key: string): Json
    requires key in Keys(details)
  {
    if details[0].key == key then details[0].value else Find(details[1..], key)
  }

  /** What `p_details ->> v_key` yields; a null yields no text. */
  function Rendered(value: Json): Option<string> {
    match value
    case JString(text) => Some(text)
    case JRendered(rendered) => Some(rendered)
    case JNull => None
  }

  predicate HasNull(details: Details) {
    exists d | d in details :: d.value.JNull?
  }

  function TextOf(details: Details, key: string): string
    requires key in Keys(details)
  {
    match Rendered(Find(details, key))
    case Some(text) => text
    case None => ""
  }

  function Header(c: Content): seq<string>
    requires IsContent(c)
  {
    ["brain.audit.v1", c.prevHash, Decimal(c.seqNo), Stamp(c.at), c.actor, c.action, c.subject,
     c.entHash, c.trace]
  }

  /** Each key and its text, in the order given. */
  function Pairs(details: Details, keys: seq<string>): seq<string>
    requires forall k | k in keys :: k in Keys(details)
  {
    if keys == [] then [] else [keys[0], TextOf(details, keys[0])] + Pairs(details, keys[1..])
  }

  function Prefixed(part: string): (s: string)
    ensures s != ""
  {
    Decimal(|part|) + ":" + part
  }

  function Joined(parts: seq<string>): string {
    if parts == [] then "" else Prefixed(parts[0]) + Joined(parts[1..])
  }

  /** The encoding by an example: length, colon, text. */
  lemma JoinedLooksLike()
    ensures Joined(["ab", "", "c:d"]) == "2:ab0:3:c:d"
  {
    assert Prefixed("ab") == "2:ab" && Prefixed("") == "0:" && Prefixed("c:d") == "3:c:d";
    assert ["ab", "", "c:d"][1..] == ["", "c:d"] && ["", "c:d"][1..] == ["c:d"] && ["c:d"][1..] == [];
  }

  /** The order of the nine parts ahead of the details is part of the hash schema. */
  lemma TheNineParts(c: Content)
    requires IsContent(c)
    ensures var h := Header(c);
            && |h| == 9 && h[0] == "brain.audit.v1" && h[1] == c.prevHash && Number(h[2]) == c.seqNo
            && h[3] == Stamp(c.at) && h[4] == c.actor && h[5] == c.action && h[6] == c.subject
            && h[7] == c.entHash && h[8] == c.trace
  {
    NumberOfDecimal(c.seqNo);
  }

  /** What is hashed; concatenating a null makes the whole of it null. */
  function Material(c: Content): Option<string>
    requires IsContent(c)
  {
    if HasNull(c.details) then None
    else Some(Joined(Header(c) + Pairs(c.details, KeysInSql(c.details))))
  }

  function EntryHash(sha: Digest, c: Content): Option<string>
    requires IsContent(c)
  {
    match Material(c)
    case None => None
    case Some(m) => Some(sha(Encode(m)))
  }

  lemma InsertKeeps(key: string, sorted: seq<string>, before: (string, string) -> bool)
    ensures |Insert(key, sorted, before)| == |sorted| + 1
    ensures forall k :: k in Insert(key, sorted, before) <==> k == key || k in sorted
  {
  }

  lemma SortKeeps(keys: seq<string>, before: (string, string) -> bool)
    ensures |Sort(keys, before)| == |keys|
    ensures forall k :: k in Sort(keys, before) <==> k in keys
  {
    if keys != [] {
      SortKeeps(keys[1..], before);
      InsertKeeps(keys[0], Sort(keys[1..], before), before);
    }
  }

  lemma JoinedSnoc(parts: seq<string>, part: string)
    ensures Joined(parts + [part]) == Joined(parts) + Prefixed(part)
  {
    if parts != [] {
      assert (parts + [part])[1..] == parts[1..] + [part];
    }
  }

  lemma PairsSnoc(details: Details, keys: seq<string>, key: string)
    requires key in Keys(details) && forall k | k in keys :: k in Keys(details)
    ensures Pairs(details, keys + [key]) == Pairs(details, keys) + [key, TextOf(details, key)]
  {
    if keys != [] {
      assert (keys + [key])[1..] == keys[1..] + [key];
      PairsSnoc(details, keys[1..], key);
    }
  }

  lemma DetailAppended(parts: seq<string>, details: Details, keys: seq<string>, key: string)
    requires key in Keys(details) && forall k | k in keys :: k in Keys(details)
    ensures Joined(parts + Pairs(details, keys + [key]))
         == Joined(parts + Pairs(details, keys)) + Prefixed(key) + Prefixed(TextOf(details, key))
  {
    PairsSnoc(details, keys, key);
    var so := parts + Pairs(details, keys);
    JoinedSnoc(so, key);
    JoinedSnoc(so + [key], TextOf(details, key));
    assert so + [key] + [TextOf(details, key)] == parts + Pairs(details, keys + [key]);
  }

  lemma DetailAppendedAt(parts: seq<string>, details: Details, keys: seq<string>, i: nat)
    requires i < |keys| && forall k | k in keys :: k in Keys(details)
    ensures Joined(parts + Pairs(details, keys[..i + 1]))
         == Joined(parts + Pairs(details, keys[..i])) + Prefixed(keys[i]) + Prefixed(TextOf(details, keys[i]))
  {
    assert keys[..i + 1] == keys[..i] + [keys[i]];
    DetailAppended(parts, details, keys[..i], keys[i]);
  }

  lemma FindIsIn(details: Details, key: string)
    requires key in Keys(details)
    ensures Detail(key, Find(details, key)) in details
  {
    if details[0].key != key {
      assert Keys(details)[1..] == Keys(details[1..]);
      FindIsIn(details[1..], key);
    }
  }

  lemma FindIsTheOne(details: Details, d: Detail)
    requires IsObject(details) && d in details
    ensures d.key in Keys(details) && Find(details, d.key) == d.value
  {
    var i :| 0 <= i < |details| && details[i] == d;
    assert Keys(details)[i] == d.key;
    FindIsIn(details, d.key);
    var j :| 0 <= j < |details| && details[j] == Detail(d.key, Find(details, d.key));
    assert i == j;
  }

  /** The first loop: the nine fixed parts, accumulated. */
  method AppendParts(parts: seq<string>) returns (joined: string)
    ensures joined == Joined(parts)
  {
    joined := "";
    var i := 0;
    while i < |parts|
      invariant 0 <= i <= |parts|
      invariant joined == Joined(parts[..i])
    {
      JoinedSnoc(parts[..i], parts[i]);
      assert parts[..i + 1] == parts[..i] + [parts[i]];
      joined := joined + Prefixed(parts[i]);
      i := i + 1;
    }
    assert parts[..i] == parts;
  }

  /** What the second loop has after so many keys: their pairs joined on, or nothing from a null text on. */
  ghost predicate JoinedSoFar(joined: Option<string>, parts: seq<string>, details: Details, keys: seq<string>)
    requires forall k | k in keys :: k in Keys(details)
  {
    && (joined.Some? <==> forall k | k in keys :: !Find(details, k).JNull?)
    && (joined.Some? ==> joined.value == Joined(parts + Pairs(details, keys)))
  }

  lemma JoinedOneMore(joined: Option<string>, parts: seq<string>, details: Details, keys: seq<string>, i: nat)
    requires i < |keys| && (forall k | k in keys :: k in Keys(details))
    requires JoinedSoFar(joined, parts, details, keys[..i])
    ensures var text := Rendered(Find(details, keys[i]));
            JoinedSoFar(if joined.Some? && text.Some?
                        then Some(joined.value + Prefixed(keys[i]) + Prefixed(text.value)) else None,
                        parts, details, keys[..i + 1])
  {
    assert keys[..i + 1] == keys[..i] + [keys[i]];
    DetailAppendedAt(parts, details, keys, i);
  }

  /** The second loop: each key and its text in turn, where one null text makes the whole null. */
  method AppendDetails(ghost parts: seq<string>, so: string, details: Details, keys: seq<string>)
    returns (joined: Option<string>)
    requires so == Joined(parts) && forall k | k in keys :: k in Keys(details)
    ensures joined.Some? <==> forall k | k in keys :: !Find(details, k).JNull?
    ensures joined.Some? ==> joined.value == Joined(parts + Pairs(details, keys))
  {
    joined := Some(so);
    var i := 0;
    assert parts + Pairs(details, keys[..0]) == parts;
    while i < |keys|
      invariant 0 <= i <= |keys|
      invariant JoinedSoFar(joined, parts, details, keys[..i])
    {
      JoinedOneMore(joined, parts, details, keys, i);
      var text := Rendered(Find(details, keys[i]));
      joined := if joined.Some? && text.Some? then Some(joined.value + Prefixed(keys[i]) + Prefixed(text.value)) else None;
      i := i + 1;
    }
    assert keys[..i] == keys;
  }

  method AuditEntryHash(sha: Digest, c: Content) returns (digest: Option<string>)
    requires IsContent(c)
    ensures digest == EntryHash(sha, c)
  {
    var fixed := AppendParts(Header(c));
    var joined := AppendDetails(Header(c), fixed, c.details, KeysInSql(c.details));
    NullsAreFound(c.details);
    digest := if joined.Some? then Some(sha(Encode(joined.value))) else None;
  }

  lemma NullsAreFound(details: Details)
    requires IsObject(details)
    ensures HasNull(details) <==>
            exists k | k in Keys(details) :: Find(details, k).JNull?
  {
    if d :| d in details && d.value.JNull? {
      FindIsTheOne(details, d);
    }
    if k :| k in Keys(details) && Find(details, k).JNull? {
      FindIsIn(details, k);
    }
  }

  // ------------------------------------------------------------ the material is injective

  /** Length prefixes leave one way to read a concatenation. */
  lemma {:induction false} JoinedInjective(ps: seq<string>, qs: seq<string>)
    requires Joined(ps) == Joined(qs)
    ensures ps == qs
  {
    if ps != [] && qs != [] {
      var p, q := ps[0], qs[0];
      assert Joined(ps) == Decimal(|p|) + [':'] + (p + Joined(ps[1..]));
      assert Joined(qs) == Decimal(|q|) + [':'] + (q + Joined(qs[1..]));
      DecimalThenMark(|p|, |q|, ':', p + Joined(ps[1..]), q + Joined(qs[1..]));
      assert p == (p + Joined(ps[1..]))[..|p|] && q == (q + Joined(qs[1..]))[..|q|];
      assert Joined(ps[1..]) == (p + Joined(ps[1..]))[|p|..] && Joined(qs[1..]) == (q + Joined(qs[1..]))[|q|..];
      JoinedInjective(ps[1..], qs[1..]);
      assert ps == [p] + ps[1..] && qs == [q] + qs[1..];
    }
  }

  /** One object: the same keys, with the same text under each. */
  ghost predicate RenderAlike(a: Details, b: Details) {
    && (forall k :: k in Keys(a) <==> k in Keys(b))
    && (forall k | k in Keys(a) && k in Keys(b) :: TextOf(a, k) == TextOf(b, k))
  }

  lemma {:induction false} PairsInjective(a: Details, ks: seq<string>, b: Details, ls: seq<string>)
    requires forall k | k in ks :: k in Keys(a)
    requires forall k | k in ls :: k in Keys(b)
    requires Pairs(a, ks) == Pairs(b, ls)
    ensures ks == ls && forall k | k in ks :: TextOf(a, k) == TextOf(b, k)
  {
    if ks != [] && ls != [] {
      var p, q := Pairs(a, ks), Pairs(b, ls);
      assert p[0] == ks[0] && q[0] == ls[0] && p[1] == TextOf(a, ks[0]) && q[1] == TextOf(b, ls[0]);
      assert p[2..] == Pairs(a, ks[1..]) && q[2..] == Pairs(b, ls[1..]);
      PairsInjective(a, ks[1..], b, ls[1..]);
      assert ks == [ks[0]] + ks[1..] && ls == [ls[0]] + ls[1..];
    }
  }

  predicate Increasing(keys: seq<string>) {
    forall i, j | 0 <= i < j < |keys| :: CodePointsPrecede(keys[i], keys[j])
  }

  lemma InsertIncreasing(key: string, sorted: seq<string>)
    requires Increasing(sorted) && key !in sorted
    ensures Increasing(Insert(key, sorted, CodePointsPrecede))
  {
    if sorted != [] {
      var result := Insert(key, sorted, CodePointsPrecede);
      if CodePointsPrecede(key, sorted[0]) {
        forall j | 1 <= j < |sorted| ensures CodePointsPrecede(key, sorted[j]) {
          PrecedesTransitive(CodePoints(key), CodePoints(sorted[0]), CodePoints(sorted[j]));
        }
      } else {
        CodePointsTotal(key, sorted[0]);
        InsertIncreasing(key, sorted[1..]);
        InsertKeeps(key, sorted[1..], CodePointsPrecede);
        var rest := Insert(key, sorted[1..], CodePointsPrecede);
        forall k | k in rest ensures CodePointsPrecede(sorted[0], k) {
        }
        forall j | 0 < j < |result| ensures CodePointsPrecede(result[0], result[j]) {
          assert result[j] == rest[j - 1] && rest[j - 1] in rest;
        }
      }
    }
  }

  lemma SortIncreasing(keys: seq<string>)
    requires forall i, j | 0 <= i < j < |keys| :: keys[i] != keys[j]
    ensures Increasing(Sort(keys, CodePointsPrecede))
  {
    if keys != [] {
      SortIncreasing(keys[1..]);
      SortKeeps(keys[1..], CodePointsPrecede);
      InsertIncreasing(keys[0], Sort(keys[1..], CodePointsPrecede));
    }
  }

  /** There is one increasing arrangement of a set of keys. */
  lemma {:induction false} IncreasingIsUnique(ks: seq<string>, ls: seq<string>)
    requires Increasing(ks) && Increasing(ls) && forall k :: k in ks <==> k in ls
    ensures ks == ls
  {
    var first := if ls != [] then ls[0] else "";
    assert ls != [] ==> first in ls;
    if ks != [] {
      assert ks[0] in ks && ls != [];
      var i :| 0 <= i < |ks| && ks[i] == ls[0];
      var j :| 0 <= j < |ls| && ls[j] == ks[0];
      CodePointsTotal(ks[0], ls[0]);
      assert i == 0;
      forall k ensures k in ks[1..] <==> k in ls[1..] {
        CodePointsTotal(ks[0], ks[0]);
        if k in ks[1..] {
          assert k in ls;
        }
        if k in ls[1..] {
          assert k in ks;
        }
      }
      IncreasingIsUnique(ks[1..], ls[1..]);
    }
  }

  /** The sorted keys depend on which keys there are and not on how they are stored. */
  lemma KeysAreCanonical(a: Details, b: Details)
    requires IsObject(a) && IsObject(b) && forall k :: k in Keys(a) <==> k in Keys(b)
    ensures KeysInSql(a) == KeysInSql(b)
  {
    SqlAndPythonSortAlike(a);
    SqlAndPythonSortAlike(b);
    SortIncreasing(Keys(a));
    SortIncreasing(Keys(b));
    SortKeeps(Keys(a), CodePointsPrecede);
    SortKeeps(Keys(b), CodePointsPrecede);
    IncreasingIsUnique(KeysInPython(a), KeysInPython(b));
  }

  lemma {:induction false} PairsAlike(a: Details, b: Details, keys: seq<string>)
    requires RenderAlike(a, b) && forall k | k in keys :: k in Keys(a)
    ensures Pairs(a, keys) == Pairs(b, keys)
  {
    if keys != [] {
      PairsAlike(a, b, keys[1..]);
    }
  }

  /** Every field but the details. */
  function WithoutDetails(c: Content): Content {
    c.(details := [])
  }

  lemma SameMaterialSameParts(c: Content, d: Content)
    requires IsContent(c) && IsContent(d) && Material(c).Some? && Material(d).Some? && Material(c) == Material(d)
    ensures Header(c) == Header(d)
    ensures Pairs(c.details, KeysInSql(c.details)) == Pairs(d.details, KeysInSql(d.details))
  {
    var ps, qs := Header(c) + Pairs(c.details, KeysInSql(c.details)), Header(d) + Pairs(d.details, KeysInSql(d.details));
    JoinedInjective(ps, qs);
    assert Header(c) == ps[..9] && Header(d) == qs[..9];
    assert Pairs(c.details, KeysInSql(c.details)) == ps[9..] && Pairs(d.details, KeysInSql(d.details)) == qs[9..];
  }

  lemma SameEntrySameMaterial(c: Content, d: Content)
    requires IsContent(c) && IsContent(d) && Material(c).Some? && Material(d).Some?
    requires WithoutDetails(c) == WithoutDetails(d) && RenderAlike(c.details, d.details)
    ensures Material(c) == Material(d)
  {
    KeysAreCanonical(c.details, d.details);
    PairsAlike(c.details, d.details, KeysInSql(c.details));
    assert c.at == d.at && Header(c) == Header(d);
  }

  /** Two entries share their material exactly when they agree on every field and every detail's text. */
  lemma MaterialDecidesTheEntry(c: Content, d: Content)
    requires IsContent(c) && IsContent(d) && Material(c).Some? && Material(d).Some?
    ensures Material(c) == Material(d)
       <==> WithoutDetails(c) == WithoutDetails(d) && RenderAlike(c.details, d.details)
  {
    if Material(c) == Material(d) {
      SameMaterialSameParts(c, d);
      HeaderInjective(c, d);
      PairsInjective(c.details, KeysInSql(c.details), d.details, KeysInSql(d.details));
    }
    if WithoutDetails(c) == WithoutDetails(d) && RenderAlike(c.details, d.details) {
      SameEntrySameMaterial(c, d);
    }
  }

  lemma HeaderInjective(c: Content, d: Content)
    requires IsContent(c) && IsContent(d) && Header(c) == Header(d)
    ensures WithoutDetails(c) == WithoutDetails(d)
  {
    var h, k := Header(c), Header(d);
    assert h[1] == k[1] && h[2] == k[2] && h[3] == k[3] && h[4] == k[4] && h[5] == k[5];
    assert h[6] == k[6] && h[7] == k[7] && h[8] == k[8];
    DecimalInjective(c.seqNo, d.seqNo);
    StampInjective(c.at, d.at);
  }

  /** Details whose every value is a string, which is all the triggers ever write. */
  predicate AllStrings(details: Details) {
    forall d | d in details :: d.value.JString?
  }

  ghost predicate SameObject(a: Details, b: Details) {
    forall d :: d in a <==> d in b
  }

  lemma StringsRenderThemselves(a: Details, b: Details, d: Detail)
    requires IsObject(a) && IsObject(b) && AllStrings(a) && AllStrings(b)
    requires RenderAlike(a, b) && d in a
    ensures d in b
  {
    FindIsTheOne(a, d);
    FindIsIn(b, d.key);
    assert TextOf(a, d.key) == TextOf(b, d.key);
  }

  lemma SameObjectRendersAlike(a: Details, b: Details)
    requires IsObject(a) && IsObject(b) && SameObject(a, b)
    ensures RenderAlike(a, b)
  {
    forall k
      ensures k in Keys(a) <==> k in Keys(b)
      ensures k in Keys(a) && k in Keys(b) ==> TextOf(a, k) == TextOf(b, k)
    {
      if k in Keys(a) {
        FindIsIn(a, k);
        FindIsTheOne(b, Detail(k, Find(a, k)));
      }
      if k in Keys(b) {
        FindIsIn(b, k);
        FindIsTheOne(a, Detail(k, Find(b, k)));
      }
    }
  }

  /** With string-valued details the material is the entry: nothing two entries differ in is lost. */
  lemma StringMaterialIsInjective(c: Content, d: Content)
    requires IsContent(c) && IsContent(d) && AllStrings(c.details) && AllStrings(d.details)
    ensures Material(c).Some? && Material(d).Some?
    ensures Material(c) == Material(d)
       <==> WithoutDetails(c) == WithoutDetails(d) && SameObject(c.details, d.details)
  {
    MaterialDecidesTheEntry(c, d);
    if Material(c) == Material(d) {
      forall x ensures x in c.details <==> x in d.details {
        if x in c.details {
          StringsRenderThemselves(c.details, d.details, x);
        }
        if x in d.details {
          StringsRenderThemselves(d.details, c.details, x);
        }
      }
    }
    if SameObject(c.details, d.details) {
      SameObjectRendersAlike(c.details, d.details);
    }
  }

  /** Values that are not strings are read as text, so a number and its numeral digest alike. */
  lemma ANumberAndItsNumeralCollide(c: Content, d: Content)
    requires IsInstant(c.at) && WithoutDetails(c) == WithoutDetails(d)
    requires c.details == [Detail("n", JRendered("1"))] && d.details == [Detail("n", JString("1"))]
    ensures IsContent(c) && IsContent(d) && c.details != d.details && Material(c) == Material(d) != None
  {
    assert Keys(c.details) == ["n"] == Keys(d.details);
    assert TextOf(c.details, "n") == "1" == TextOf(d.details, "n");
    assert !HasNull(c.details) && !HasNull(d.details);
    MaterialDecidesTheEntry(c, d);
  }
}
