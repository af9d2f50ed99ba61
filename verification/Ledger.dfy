/**
 `obs.audit_entry`: the hash chain, the walk that verifies it, and concurrent transactions
 appending to it under one advisory lock.
 */
module Ledger {
  import opened Wrappers
  import opened Text
  import opened Utf8
  import opened AuditHash

  /** What an entry says: an instant that exists, and details that are strings under distinct keys. */
  type Fields = c: Content | IsContent(c) && AllStrings(c.details)
    witness Content("", 0, Instant(1, 1, 1, 0, 0, 0, 0), "", "", "", "", "", [])

  datatype Entry = Entry(content: Fields, entryHash: string)

  /** What a caller supplies; the sequence number and the parent digest are never among it. */
  datatype PayloadFields = Payload(at: Instant, actor: string, action: string, subject: string,
                                   entHash: string, trace: string, details: Details)

  type Payload = p: PayloadFields | IsInstant(p.at) && IsObject(p.details) && AllStrings(p.details)
    witness Payload(Instant(1, 1, 1, 0, 0, 0, 0), "", "", "", "", "", [])

  const GENESIS: string := "0000000000000000000000000000000000000000000000000000000000000000"

  function Link(p: Payload, seqNo: nat, prevHash: string): Fields {
    Content(prevHash, seqNo, p.at, p.actor, p.action, p.subject, p.entHash, p.trace, p.details)
  }

  /** The bytes an entry's digest is taken of. */
  function Bytes(c: Fields): seq<int> {
    Encode(MaterialOf(c))
  }

  function MaterialOf(c: Fields): string {
    StringMaterialIsInjective(c, c);
    Material(c).value
  }

  /** How an entry is signed: with `obs.audit_entry_hash` over some digest. */
  type Signer = Fields -> string

  function SignedBy(sha: Digest): Signer {
    (c: Fields) => sha(Bytes(c))
  }

  /** Signing by a digest is the function the trigger calls. */
  lemma SignedByIsEntryHash(sha: Digest, c: Fields)
    ensures EntryHash(sha, c) == Some(SignedBy(sha)(c))
  {
    StringMaterialIsInjective(c, c);
    assert Material(c) == Some(MaterialOf(c));
    assert SignedBy(sha)(c) == sha(Bytes(c));
  }

  function Signed(sign: Signer, c: Fields): Entry {
    Entry(c, sign(c))
  }

  /** The digest a ledger ends in, or the one it starts from. */
  function Head(rows: seq<Entry>, start: string): string {
    if rows == [] then start else rows[|rows| - 1].entryHash
  }

  // ------------------------------------------------------------ AuditChain.first_break

  datatype Reason = SequenceBroken | LinkBroken | ContentAltered

  /** Why an entry does not hold after the entries before it, if it does not. */
  function BreakAfter(sign: Signer, before: seq<Entry>, e: Entry, start: string): Option<Reason> {
    if before != [] && e.content.seqNo != before[|before| - 1].content.seqNo + 1 then Some(SequenceBroken)
    else if e.content.prevHash != Head(before, start) then Some(LinkBroken)
    else if e != Signed(sign, e.content) then Some(ContentAltered)
    else None
  }

  predicate Verifies(sign: Signer, rows: seq<Entry>, start: string) {
    rows == []
    || (&& Verifies(sign, rows[..|rows| - 1], start)
        && BreakAfter(sign, rows[..|rows| - 1], rows[|rows| - 1], start).None?)
  }

  lemma {:induction false} VerifiedPrefix(sign: Signer, rows: seq<Entry>, start: string, n: nat)
    requires Verifies(sign, rows, start) && n <= |rows|
    ensures Verifies(sign, rows[..n], start)
    ensures n < |rows| ==> BreakAfter(sign, rows[..n], rows[n], start).None?
  {
    if n < |rows| {
      assert rows[..|rows| - 1][..n] == rows[..n];
      VerifiedPrefix(sign, rows[..|rows| - 1], start, n);
    } else {
      assert rows[..n] == rows;
    }
  }

  /** The walk stops at the first entry that does not hold, with the reason. */
  method FirstBreak(sign: Signer, rows: seq<Entry>, start: string) returns (found: Option<(nat, Reason)>)
    ensures found.None? <==> Verifies(sign, rows, start)
    ensures found.Some? ==>
              && found.value.0 < |rows|
              && Verifies(sign, rows[..found.value.0], start)
              && BreakAfter(sign, rows[..found.value.0], rows[found.value.0], start) == Some(found.value.1)
  {
    var previousHash := start;
    var i := 0;
    found := None;
    while i < |rows| && found.None?
      invariant 0 <= i <= |rows|
      invariant Verifies(sign, rows[..i], start) && previousHash == Head(rows[..i], start)
      invariant found.Some? ==>
                  && found.value.0 == i < |rows|
                  && BreakAfter(sign, rows[..i], rows[i], start) == Some(found.value.1)
      decreases |rows| - i, found.None?
    {
      var e := rows[i];
      if i > 0 && e.content.seqNo != rows[i - 1].content.seqNo + 1 {
        found := Some((i, SequenceBroken));
      } else if e.content.prevHash != previousHash {
        found := Some((i, LinkBroken));
      } else if Signed(sign, e.content).entryHash != e.entryHash {
        found := Some((i, ContentAltered));
      } else {
        assert rows[..i + 1][..i] == rows[..i];
        previousHash := e.entryHash;
        i := i + 1;
      }
    }
    if found.Some? {
      if Verifies(sign, rows, start) {
        VerifiedPrefix(sign, rows, start, i);
      }
    } else {
      assert rows[..i] == rows;
    }
  }

  // ------------------------------------------------------------ one digest, one history

  /** What two contents share when nothing they say differs. */
  ghost predicate SameContent(c: Fields, d: Fields) {
    WithoutDetails(c) == WithoutDetails(d) && SameObject(c.details, d.details)
  }

  ghost predicate SameEntry(e: Entry, f: Entry) {
    e.entryHash == f.entryHash && SameContent(e.content, f.content)
  }

  ghost predicate SameLedger(a: seq<Entry>, b: seq<Entry>) {
    |a| == |b| && forall i | 0 <= i < |a| :: SameEntry(a[i], b[i])
  }

  /** On these contents the signature tells what differs apart, and repeats no starting digest. */
  ghost predicate Unforged(sign: Signer, rows: seq<Entry>, others: seq<Entry>, start: string) {
    && (forall e, f | e in rows && f in others && sign(e.content) == sign(f.content) ::
          SameContent(e.content, f.content))
    && (forall e | e in rows || e in others :: sign(e.content) != start)
  }

  lemma UnforgedPrefix(sign: Signer, a: seq<Entry>, b: seq<Entry>, start: string)
    requires a != [] && b != [] && Unforged(sign, a, b, start)
    ensures Unforged(sign, a[..|a| - 1], b[..|b| - 1], start)
  {
    assert forall e | e in a[..|a| - 1] :: e in a;
    assert forall e | e in b[..|b| - 1] :: e in b;
  }

  /** The last entries of two ledgers that end in one digest are one entry, and so are their parents. */
  lemma LastEntriesAreOne(sign: Signer, a: seq<Entry>, b: seq<Entry>, start: string)
    requires a != [] && b != []
    requires Verifies(sign, a, start) && Verifies(sign, b, start) && Unforged(sign, a, b, start)
    requires Head(a, start) == Head(b, start)
    ensures SameEntry(a[|a| - 1], b[|b| - 1])
    ensures Head(a[..|a| - 1], start) == Head(b[..|b| - 1], start)
  {
    assert a[|a| - 1] in a && b[|b| - 1] in b;
  }

  lemma EndsElsewhere(sign: Signer, a: seq<Entry>, b: seq<Entry>, start: string)
    requires a != [] && Verifies(sign, a, start) && (Unforged(sign, a, b, start) || Unforged(sign, b, a, start))
    ensures Head(a, start) != start
  {
    assert a[|a| - 1] in a;
  }

  lemma SameLedgerSnoc(a: seq<Entry>, b: seq<Entry>)
    requires a != [] && b != [] && SameEntry(a[|a| - 1], b[|b| - 1])
    requires SameLedger(a[..|a| - 1], b[..|b| - 1])
    ensures SameLedger(a, b)
  {
    forall i | 0 <= i < |a| ensures SameEntry(a[i], b[i]) {
      assert i < |a| - 1 ==> SameEntry(a[..|a| - 1][i], b[..|b| - 1][i]);
    }
  }

  lemma {:induction false} OneSignatureOneHistory(sign: Signer, a: seq<Entry>, b: seq<Entry>, start: string)
    requires Verifies(sign, a, start) && Verifies(sign, b, start)
    requires Unforged(sign, a, b, start)
    requires Head(a, start) == Head(b, start)
    ensures SameLedger(a, b)
  {
    if a == [] {
      if b != [] {
        EndsElsewhere(sign, b, a, start);
      }
    } else if b == [] {
      EndsElsewhere(sign, a, b, start);
    } else {
      LastEntriesAreOne(sign, a, b, start);
      UnforgedPrefix(sign, a, b, start);
      OneSignatureOneHistory(sign, a[..|a| - 1], b[..|b| - 1], start);
      SameLedgerSnoc(a, b);
    }
  }

  /** The bytes these entries were digested from. */
  function Hashed(rows: seq<Entry>): set<seq<int>> {
    set e | e in rows :: Bytes(e.content)
  }

  /** The digest tells these byte strings apart, and none of them from the starting digest. */
  ghost predicate NoCollision(sha: Digest, hashed: set<seq<int>>, start: string) {
    && (forall x, y | x in hashed && y in hashed && sha(x) == sha(y) :: x == y)
    && (forall x | x in hashed :: sha(x) != start)
  }

  lemma SameBytesSameContent(c: Fields, d: Fields)
    ensures Bytes(c) == Bytes(d) <==> SameContent(c, d)
  {
    StringMaterialIsInjective(c, d);
    StringMaterialIsInjective(c, c);
    StringMaterialIsInjective(d, d);
    if Bytes(c) == Bytes(d) {
      EncodeInjective(MaterialOf(c), MaterialOf(d));
    }
  }

  lemma DigestIsUnforged(sha: Digest, a: seq<Entry>, b: seq<Entry>, start: string)
    requires NoCollision(sha, Hashed(a) + Hashed(b), start)
    ensures Unforged(SignedBy(sha), a, b, start)
  {
    var hashed := Hashed(a) + Hashed(b);
    forall e | e in a || e in b ensures Bytes(e.content) in hashed {
    }
    forall e, f | e in a && f in b && SignedBy(sha)(e.content) == SignedBy(sha)(f.content)
      ensures SameContent(e.content, f.content)
    {
      SameBytesSameContent(e.content, f.content);
    }
  }

  /**
   One digest fixes the whole history: two ledgers that verify from the same start and end in the
   same digest are equal entry for entry, unless the digest itself collided on what they hash.
   */
  lemma OneHeadOneHistory(sha: Digest, a: seq<Entry>, b: seq<Entry>, start: string)
    requires Verifies(SignedBy(sha), a, start) && Verifies(SignedBy(sha), b, start)
    requires NoCollision(sha, Hashed(a) + Hashed(b), start)
    requires Head(a, start) == Head(b, start)
    ensures SameLedger(a, b)
  {
    DigestIsUnforged(sha, a, b, start);
    OneSignatureOneHistory(SignedBy(sha), a, b, start);
  }

  // ------------------------------------------------------------ the chain the trigger writes

  /** An entry the trigger would write next: numbered by the rows before it, linked, and signed. */
  predicate Follows(sign: Signer, before: seq<Entry>, e: Entry) {
    && e.content.seqNo == |before|
    && e.content.prevHash == Head(before, GENESIS)
    && e == Signed(sign, e.content)
  }

  /** A ledger built entry by entry from nothing. */
  predicate Chain(sign: Signer, rows: seq<Entry>) {
    rows == [] || (Chain(sign, rows[..|rows| - 1]) && Follows(sign, rows[..|rows| - 1], rows[|rows| - 1]))
  }

  lemma {:induction false} ChainPrefix(sign: Signer, rows: seq<Entry>, n: nat)
    requires Chain(sign, rows) && n <= |rows|
    ensures Chain(sign, rows[..n])
    ensures n < |rows| ==> Follows(sign, rows[..n], rows[n])
  {
    if n < |rows| {
      assert rows[..|rows| - 1][..n] == rows[..n];
      ChainPrefix(sign, rows[..|rows| - 1], n);
    } else {
      assert rows[..n] == rows;
    }
  }

  /** What the trigger writes is what the verifier accepts, from the genesis digest and from zero. */
  lemma {:induction false} ChainsAreWhatVerifies(sign: Signer, rows: seq<Entry>)
    ensures Chain(sign, rows) <==> Verifies(sign, rows, GENESIS) && (rows != [] ==> rows[0].content.seqNo == 0)
    ensures Chain(sign, rows) && rows != [] ==> rows[|rows| - 1].content.seqNo == |rows| - 1
  {
    if rows != [] {
      var before := rows[..|rows| - 1];
      ChainsAreWhatVerifies(sign, before);
      assert before != [] ==> before[0] == rows[0];
    }
  }

  // ------------------------------------------------------------ reading the head

  /** The row of the largest sequence number, whatever order the rows come in. */
  function Top(rows: seq<Entry>): (e: Entry)
    requires rows != []
    ensures e in rows && forall f | f in rows :: f.content.seqNo <= e.content.seqNo
  {
    if |rows| == 1 then rows[0]
    else
      var rest := Top(rows[1..]);
      if rest.content.seqNo < rows[0].content.seqNo then rows[0] else rest
  }

  /** `COALESCE(max(e.seq) + 1, 0)`. */
  function NextSeq(rows: seq<Entry>): nat {
    if rows == [] then 0 else Top(rows).content.seqNo + 1
  }

  /** The digest of the entry of the largest sequence number, or the genesis digest. */
  function LastHash(rows: seq<Entry>): string {
    if rows == [] then GENESIS else Top(rows).entryHash
  }

  lemma NumberedInOrder(sign: Signer, rows: seq<Entry>, i: nat)
    requires Chain(sign, rows) && i < |rows|
    ensures rows[i].content.seqNo == i
  {
    ChainPrefix(sign, rows, i);
  }

  lemma {:induction false} HeadOfChain(sign: Signer, rows: seq<Entry>)
    requires Chain(sign, rows)
    ensures NextSeq(rows) == |rows| && LastHash(rows) == Head(rows, GENESIS)
  {
    if rows != [] {
      var i :| 0 <= i < |rows| && rows[i] == Top(rows);
      NumberedInOrder(sign, rows, i);
      NumberedInOrder(sign, rows, |rows| - 1);
      assert rows[|rows| - 1] in rows;
    }
  }

  /** The entry a transaction writes on these rows. */
  function NextEntry(sign: Signer, rows: seq<Entry>, p: Payload): Entry {
    Signed(sign, Link(p, NextSeq(rows), LastHash(rows)))
  }

  lemma ChainGrows(sign: Signer, rows: seq<Entry>, p: Payload)
    requires Chain(sign, rows)
    ensures Chain(sign, rows + [NextEntry(sign, rows, p)])
  {
    HeadOfChain(sign, rows);
    assert (rows + [NextEntry(sign, rows, p)])[..|rows|] == rows;
  }
}
