/**
 What the transactions of LedgerProtocol leave in the ledger: every entry of those that commit, in the
 order they commit, and nothing of any other.
 */
module LedgerCommits {
  import opened Wrappers
  import opened AuditHash
  import opened Ledger
  import opened LedgerProtocol

  // ------------------------------------------------------------ what is committed

  /** The chain of these payloads, each written on what the ones before it left. */
  function LedgerOf(sign: Signer, ps: seq<Payload>): seq<Entry> {
    if ps == [] then []
    else
      var before := LedgerOf(sign, ps[..|ps| - 1]);
      before + [NextEntry(sign, before, ps[|ps| - 1])]
  }

  lemma {:induction false} LedgerOfMore(sign: Signer, ps: seq<Payload>, p: Payload)
    ensures LedgerOf(sign, ps + [p]) == LedgerOf(sign, ps) + [NextEntry(sign, LedgerOf(sign, ps), p)]
  {
    assert (ps + [p])[..|ps|] == ps;
  }

  /** An entry says what its payload says, under its number and its parent's digest. */
  predicate SaysPayload(e: Entry, p: Payload, n: nat, parent: string) {
    && e.content.seqNo == n && e.content.prevHash == parent
    && e.content.at == p.at && e.content.actor == p.actor && e.content.action == p.action
    && e.content.subject == p.subject && e.content.entHash == p.entHash && e.content.trace == p.trace
    && e.content.details == p.details
  }

  lemma {:induction false} LedgerOfIsAChain(sign: Signer, ps: seq<Payload>)
    ensures |LedgerOf(sign, ps)| == |ps| && Chain(sign, LedgerOf(sign, ps))
  {
    if ps != [] {
      LedgerOfIsAChain(sign, ps[..|ps| - 1]);
      ChainGrows(sign, LedgerOf(sign, ps[..|ps| - 1]), ps[|ps| - 1]);
    }
  }

  lemma {:induction false} NextSaysPayload(sign: Signer, rows: seq<Entry>, p: Payload)
    requires Chain(sign, rows)
    ensures SaysPayload(NextEntry(sign, rows, p), p, |rows|, Head(rows, GENESIS))
  {
    HeadOfChain(sign, rows);
  }

  /** The ledger of some payloads has an entry for each, in order, saying what it says. */
  lemma {:induction false} LedgerSaysEachPayload(sign: Signer, ps: seq<Payload>, i: nat)
    requires i < |ps| == |LedgerOf(sign, ps)|
    ensures var rows := LedgerOf(sign, ps);
            SaysPayload(rows[i], ps[i], i, if i == 0 then GENESIS else rows[i - 1].entryHash)
  {
    var front, last := ps[..|ps| - 1], ps[|ps| - 1];
    LedgerOfIsAChain(sign, front);
    if i < |front| {
      LedgerSaysEachPayload(sign, front, i);
    } else {
      NextSaysPayload(sign, LedgerOf(sign, front), last);
    }
  }

  /** An append that goes in. */
  ghost predicate LetIn(sign: Signer, s: Sys, step: Step) {
    step.Append? && Ready(s, step.t) && RefusalOf(sign, s, step.t, step.payload).None?
  }

  /** A step that ends its transaction: a commit, an abort, or a statement that raises. */
  ghost predicate Ends(sign: Signer, s: Sys, step: Step) {
    || step.Commit? || step.Abort? || step.Amend?
    || (step.Append? && Ready(s, step.t) && RefusalOf(sign, s, step.t, step.payload).Some?)
  }

  /** Whether a transaction has begun and not ended. */
  ghost predicate Open(sign: Signer, steps: seq<Step>, t: nat) {
    steps != []
    && var front, step := steps[..|steps| - 1], steps[|steps| - 1];
       if step.t != t then Open(sign, front, t)
       else step.Begin? || (Open(sign, front, t) && !Ends(sign, Run(sign, EMPTY, front), step))
  }

  /** What a transaction has had let in since it began. */
  ghost function Pending(sign: Signer, steps: seq<Step>, t: nat): seq<Payload> {
    if steps == [] then []
    else
      var front, step := steps[..|steps| - 1], steps[|steps| - 1];
      if step.t != t then Pending(sign, front, t)
      else if !Open(sign, front, t) then []
      else if LetIn(sign, Run(sign, EMPTY, front), step) then Pending(sign, front, t) + [step.payload]
      else Pending(sign, front, t)
  }

  /** What the transactions that committed had had let in, in the order they committed. */
  ghost function Kept(sign: Signer, steps: seq<Step>): seq<Payload> {
    if steps == [] then []
    else
      var front, step := steps[..|steps| - 1], steps[|steps| - 1];
      if step.Commit? && Open(sign, front, step.t) then Kept(sign, front) + Pending(sign, front, step.t)
      else Kept(sign, front)
  }

  /** A transaction's rows are those of what it has pending, on top of what is kept. */
  ghost predicate TellsOf(sign: Signer, s: Sys, t: nat, kept: seq<Payload>, pending: seq<Payload>)
    requires t in s.txs
  {
    |s.txs[t].written| == |pending| && Visible(s, t) == LedgerOf(sign, kept + pending)
  }

  ghost predicate Tells(sign: Signer, s: Sys, steps: seq<Step>) {
    && s.committed == LedgerOf(sign, Kept(sign, steps))
    && (forall t :: t in s.txs <==> Open(sign, steps, t))
    && (forall t | t in s.txs :: TellsOf(sign, s, t, Kept(sign, steps), Pending(sign, steps, t)))
  }

  /** A transaction that has written nothing has nothing pending. */
  lemma {:induction false} NothingPending(sign: Signer, s: Sys, t: nat, kept: seq<Payload>, pending: seq<Payload>)
    requires t in s.txs && s.txs[t].written == [] && TellsOf(sign, s, t, kept, pending)
    ensures pending == []
  {
  }

  lemma {:induction false} UnwrittenTells(sign: Signer, s: Sys, t: nat, kept: seq<Payload>)
    requires t in s.txs && s.txs[t].written == [] && s.committed == LedgerOf(sign, kept)
    ensures TellsOf(sign, s, t, kept, [])
  {
    assert kept + [] == kept && s.committed + [] == s.committed;
  }

  /** A step leaves the transactions it is not of telling what they told. */
  lemma {:induction false} OtherTells(sign: Signer, s: Sys, s': Sys, u: nat, kept: seq<Payload>, kept': seq<Payload>, pending: seq<Payload>)
    requires Sound(sign, s) && u in s.txs && u in s'.txs && s'.txs[u] == s.txs[u]
    requires TellsOf(sign, s, u, kept, pending) && s'.committed == LedgerOf(sign, kept')
    requires (kept' == kept && s'.committed == s.committed) || s.lock != Some(u)
    ensures TellsOf(sign, s', u, kept', pending)
  {
    if s.lock != Some(u) {
      WithoutTheLock(sign, s, u);
      NothingPending(sign, s, u, kept, pending);
      UnwrittenTells(sign, s', u, kept');
    } else {
      assert Visible(s', u) == Visible(s, u);
    }
  }

  lemma {:induction false} PendingGrows(sign: Signer, kept: seq<Payload>, pending: seq<Payload>, p: Payload)
    ensures var rows := LedgerOf(sign, kept + pending);
            LedgerOf(sign, kept + (pending + [p])) == rows + [NextEntry(sign, rows, p)]
  {
    assert kept + (pending + [p]) == (kept + pending) + [p];
    LedgerOfMore(sign, kept + pending, p);
  }

  lemma {:induction false} LetInIsNext(sign: Signer, s: Sys, t: nat, p: Payload)
    requires Sound(sign, s) && Ready(s, t) && RefusalOf(sign, s, t, p).None?
    ensures Written(sign, s, t, p) == NextEntry(sign, Visible(s, t), p)
  {
    assert Holds(sign, s, t);
    AcceptedIsNext(sign, s, t, p);
    HeadReadIsNext(sign, s, t, p);
  }

  /** What an append lets in is the next thing pending. */
  lemma {:induction false} AppendTells(sign: Signer, s: Sys, s': Sys, t: nat, p: Payload,
                                       kept: seq<Payload>, pending: seq<Payload>)
    requires Sound(sign, s) && Ready(s, t) && RefusalOf(sign, s, t, p).None? && TellsOf(sign, s, t, kept, pending)
    requires s'.committed == s.committed && t in s'.txs
    requires s'.txs[t].written == s.txs[t].written + [Written(sign, s, t, p)]
    ensures TellsOf(sign, s', t, kept, pending + [p])
  {
    LetInIsNext(sign, s, t, p);
    MoreIsVisible(s, s', t, Written(sign, s, t, p));
    PendingGrows(sign, kept, pending, p);
  }

  lemma {:induction false} LetInIsWritten(sign: Signer, s: Sys, step: Step)
    requires step.t in s.txs && LetIn(sign, s, step)
    ensures var s' := Take(sign, s, step);
            && s'.committed == s.committed && step.t in s'.txs
            && s'.txs[step.t].written == s.txs[step.t].written + [Written(sign, s, step.t, step.payload)]
  {
  }

  /** A step that neither writes nor ends leaves its transaction's rows alone. */
  lemma {:induction false} OtherwiseUnwritten(sign: Signer, s: Sys, step: Step)
    requires step.t in s.txs && !LetIn(sign, s, step) && !Ends(sign, s, step)
    ensures var s' := Take(sign, s, step);
            s'.committed == s.committed && step.t in s'.txs && s'.txs[step.t].written == s.txs[step.t].written
  {
  }

  /** A step that ends its transaction takes it away, with its rows committed or not at all. */
  lemma {:induction false} EndsIt(sign: Signer, s: Sys, step: Step)
    requires step.t in s.txs && Ends(sign, s, step)
    ensures var s' := Take(sign, s, step);
            step.t !in s'.txs && s'.committed == if step.Commit? then Visible(s, step.t) else s.committed
  {
  }

  /** What a step does to its own transaction, in what it has pending. */
  lemma {:induction false} OwnTells(sign: Signer, s: Sys, step: Step, kept: seq<Payload>, pending: seq<Payload>)
    requires Sound(sign, s) && s.committed == LedgerOf(sign, kept)
    requires step.t in s.txs && TellsOf(sign, s, step.t, kept, pending)
    ensures var s' := Take(sign, s, step);
            && (step.t in s'.txs <==> !Ends(sign, s, step))
            && (step.t in s'.txs ==>
                  TellsOf(sign, s', step.t, kept, if LetIn(sign, s, step) then pending + [step.payload] else pending))
            && s'.committed == if step.Commit? then LedgerOf(sign, kept + pending) else s.committed
  {
    if LetIn(sign, s, step) {
      LetInIsWritten(sign, s, step);
      AppendTells(sign, s, Take(sign, s, step), step.t, step.payload, kept, pending);
    } else if Ends(sign, s, step) {
      EndsIt(sign, s, step);
    } else {
      OtherwiseUnwritten(sign, s, step);
    }
  }

  /** A step of a transaction that is not open begins it or does nothing. */
  lemma {:induction false} UnopenedTells(sign: Signer, s: Sys, step: Step, kept: seq<Payload>)
    requires s.committed == LedgerOf(sign, kept) && step.t !in s.txs
    ensures var s' := Take(sign, s, step);
            && s'.committed == s.committed && (step.t in s'.txs <==> step.Begin?)
            && (step.t in s'.txs ==> TellsOf(sign, s', step.t, kept, []))
  {
    if step.Begin? {
      UnwrittenTells(sign, Take(sign, s, step), step.t, kept);
    }
  }

  lemma {:induction false} OthersStand(sign: Signer, s: Sys, step: Step, u: nat)
    requires u != step.t
    ensures var s' := Take(sign, s, step);
            (u in s'.txs <==> u in s.txs) && (u in s.txs ==> s'.txs[u] == s.txs[u])
  {
  }

  /** A commit changes what is committed only if its transaction holds the lock. */
  lemma {:induction false} OnlyTheLockCommits(sign: Signer, s: Sys, step: Step)
    requires Sound(sign, s)
    ensures Take(sign, s, step).committed == s.committed || s.lock == Some(step.t)
  {
    if step.Commit? && step.t in s.txs && s.lock != Some(step.t) {
      WithoutTheLock(sign, s, step.t);
    }
  }

  lemma {:induction false} KeptByOneMore(sign: Signer, front: seq<Step>, step: Step)
    ensures Kept(sign, front + [step]) ==
            if step.Commit? && Open(sign, front, step.t) then Kept(sign, front) + Pending(sign, front, step.t)
            else Kept(sign, front)
    ensures Run(sign, EMPTY, front + [step]) == Take(sign, Run(sign, EMPTY, front), step)
  {
    assert (front + [step])[..|front|] == front;
  }

  lemma {:induction false} OpenByOneMore(sign: Signer, front: seq<Step>, step: Step, t: nat)
    ensures Open(sign, front + [step], t) <==>
            if step.t != t then Open(sign, front, t)
            else step.Begin? || (Open(sign, front, t) && !Ends(sign, Run(sign, EMPTY, front), step))
    ensures Pending(sign, front + [step], t) ==
            if step.t != t then Pending(sign, front, t)
            else if !Open(sign, front, t) then []
            else if LetIn(sign, Run(sign, EMPTY, front), step) then Pending(sign, front, t) + [step.payload]
            else Pending(sign, front, t)
  {
    assert (front + [step])[..|front|] == front;
  }

  lemma {:induction false} CommittedTells(sign: Signer, front: seq<Step>, step: Step)
    requires Sound(sign, Run(sign, EMPTY, front)) && Tells(sign, Run(sign, EMPTY, front), front)
    ensures Run(sign, EMPTY, front + [step]).committed == LedgerOf(sign, Kept(sign, front + [step]))
  {
    var s := Run(sign, EMPTY, front);
    KeptByOneMore(sign, front, step);
    if step.t in s.txs {
      OwnTells(sign, s, step, Kept(sign, front), Pending(sign, front, step.t));
    } else {
      UnopenedTells(sign, s, step, Kept(sign, front));
    }
  }

  lemma {:induction false} TransactionTells(sign: Signer, front: seq<Step>, step: Step, t: nat)
    requires Sound(sign, Run(sign, EMPTY, front)) && Tells(sign, Run(sign, EMPTY, front), front)
    ensures var s', more := Run(sign, EMPTY, front + [step]), front + [step];
            && (t in s'.txs <==> Open(sign, more, t))
            && (t in s'.txs ==> TellsOf(sign, s', t, Kept(sign, more), Pending(sign, more, t)))
  {
    var s, kept := Run(sign, EMPTY, front), Kept(sign, front);
    KeptByOneMore(sign, front, step);
    OpenByOneMore(sign, front, step, t);
    CommittedTells(sign, front, step);
    if t != step.t {
      OthersStand(sign, s, step, t);
      OnlyTheLockCommits(sign, s, step);
      if t in s.txs {
        StillTells(sign, front, step, t);
      }
    } else if t in s.txs {
      OwnTells(sign, s, step, kept, Pending(sign, front, t));
    } else {
      UnopenedTells(sign, s, step, kept);
    }
  }

  lemma {:induction false} StillTells(sign: Signer, front: seq<Step>, step: Step, u: nat)
    requires Sound(sign, Run(sign, EMPTY, front)) && Tells(sign, Run(sign, EMPTY, front), front)
    requires u != step.t && u in Run(sign, EMPTY, front).txs
    ensures u in Run(sign, EMPTY, front + [step]).txs
    ensures TellsOf(sign, Run(sign, EMPTY, front + [step]), u, Kept(sign, front + [step]), Pending(sign, front, u))
  {
    var s := Run(sign, EMPTY, front);
    var s' := Take(sign, s, step);
    KeptByOneMore(sign, front, step);
    CommittedTells(sign, front, step);
    OthersStand(sign, s, step, u);
    if s.lock == Some(u) && step.Commit? && step.t in s.txs {
      WithoutTheLock(sign, s, step.t);
      NothingPending(sign, s, step.t, Kept(sign, front), Pending(sign, front, step.t));
      assert Kept(sign, front) + [] == Kept(sign, front);
    }
    OnlyTheLockCommits(sign, s, step);
    OtherTells(sign, s, s', u, Kept(sign, front), Kept(sign, front + [step]), Pending(sign, front, u));
  }

  lemma {:induction false} EveryRunTells(sign: Signer, steps: seq<Step>)
    ensures Tells(sign, Run(sign, EMPTY, steps), steps)
  {
    if steps != [] {
      var front, step := steps[..|steps| - 1], steps[|steps| - 1];
      assert steps == front + [step];
      EveryRunTells(sign, front);
      RunIsSound(sign, EMPTY, front);
      CommittedTells(sign, front, step);
      forall t
        ensures t in Run(sign, EMPTY, steps).txs <==> Open(sign, steps, t)
        ensures t in Run(sign, EMPTY, steps).txs ==>
                  TellsOf(sign, Run(sign, EMPTY, steps), t, Kept(sign, steps), Pending(sign, steps, t))
      {
        TransactionTells(sign, front, step, t);
      }
    }
  }

  /**
   Under every interleaving the committed ledger is what the committed transactions had had let in, in
   the order they committed, every entry of each of them and nothing of any other.
   */
  lemma {:induction false} TheLedgerIsWhatWasCommitted(sign: Signer, steps: seq<Step>, i: nat)
    ensures var rows, ps := Run(sign, EMPTY, steps).committed, Kept(sign, steps);
            && |rows| == |ps|
            && (i < |ps| ==> SaysPayload(rows[i], ps[i], i, if i == 0 then GENESIS else rows[i - 1].entryHash))
  {
    RunCommitsKept(sign, steps);
    LedgerOfIsAChain(sign, Kept(sign, steps));
    if i < |Kept(sign, steps)| {
      LedgerSaysEachPayload(sign, Kept(sign, steps), i);
    }
  }

  lemma {:induction false} RunCommitsKept(sign: Signer, steps: seq<Step>)
    ensures Run(sign, EMPTY, steps).committed == LedgerOf(sign, Kept(sign, steps))
  {
    EveryRunTells(sign, steps);
  }

  // ------------------------------------------------------------ what the indexes keep

  /** Two rows the unique indexes hold together, neither of them its own parent. */
  predicate Apart(e: Entry, f: Entry) {
    && e.content.seqNo != f.content.seqNo && e.entryHash != f.entryHash && e.content.prevHash != f.content.prevHash
  }

  ghost predicate Indexed(rows: seq<Entry>) {
    && (forall i, j | 0 <= i < j < |rows| :: Apart(rows[i], rows[j]))
    && (forall i | 0 <= i < |rows| :: rows[i].entryHash != rows[i].content.prevHash)
  }

  ghost predicate IndexesHold(s: Sys) {
    Indexed(s.committed) && forall t | t in s.txs :: Indexed(Visible(s, t))
  }

  lemma {:induction false} AcceptedIsApart(sign: Signer, s: Sys, t: nat, p: Payload)
    requires Ready(s, t) && RefusalOf(sign, s, t, p).None? && Indexed(Visible(s, t))
    ensures Indexed(Visible(s, t) + [Written(sign, s, t, p)])
  {
    var rows, e := Visible(s, t), Written(sign, s, t, p);
    forall f | f in rows ensures Apart(f, e) {
      assert InIndex(s, f);
    }
  }

  lemma {:induction false} TakeHoldsIndexes(sign: Signer, s: Sys, step: Step)
    requires Sound(sign, s) && IndexesHold(s)
    ensures IndexesHold(Take(sign, s, step))
  {
    var s', t := Take(sign, s, step), step.t;
    CommittedStaysIndexed(sign, s, step);
    forall u | u in s'.txs ensures Indexed(Visible(s', u)) {
      if u != t {
        OtherStaysIndexed(sign, s, step, u);
      } else if t !in s.txs {
        BegunIsUnwritten(sign, s, step);
        UnwrittenIsIndexed(s', t);
      } else if LetIn(sign, s, step) {
        LetInIsWritten(sign, s, step);
        MoreIsVisible(s, s', t, Written(sign, s, t, step.payload));
        AcceptedIsApart(sign, s, t, step.payload);
      } else if Ends(sign, s, step) {
        EndsIt(sign, s, step);
      } else {
        OtherwiseUnwritten(sign, s, step);
        assert Visible(s', t) == Visible(s, t);
      }
    }
  }

  lemma {:induction false} CommittedStaysIndexed(sign: Signer, s: Sys, step: Step)
    requires IndexesHold(s)
    ensures Indexed(Take(sign, s, step).committed)
  {
    if step.t in s.txs {
      if Ends(sign, s, step) {
        EndsIt(sign, s, step);
      } else if LetIn(sign, s, step) {
        LetInIsWritten(sign, s, step);
      } else {
        OtherwiseUnwritten(sign, s, step);
      }
    }
  }

  lemma {:induction false} UnwrittenIsIndexed(s: Sys, t: nat)
    requires t in s.txs && s.txs[t].written == [] && Indexed(s.committed)
    ensures Indexed(Visible(s, t))
  {
    assert Visible(s, t) == s.committed;
  }

  lemma {:induction false} BegunIsUnwritten(sign: Signer, s: Sys, step: Step)
    requires step.t !in s.txs && step.t in Take(sign, s, step).txs
    ensures Take(sign, s, step).txs[step.t].written == []
  {
  }

  lemma {:induction false} OtherStaysIndexed(sign: Signer, s: Sys, step: Step, u: nat)
    requires Sound(sign, s) && IndexesHold(s) && u != step.t && u in Take(sign, s, step).txs
    ensures Indexed(Visible(Take(sign, s, step), u))
  {
    var s' := Take(sign, s, step);
    OthersStand(sign, s, step, u);
    OnlyTheLockCommits(sign, s, step);
    CommittedStaysIndexed(sign, s, step);
    if s.lock == Some(step.t) {
      WithoutTheLock(sign, s, u);
      UnwrittenIsIndexed(s', u);
    } else {
      assert Visible(s', u) == Visible(s, u);
    }
  }

  lemma {:induction false} RunHoldsIndexes(sign: Signer, steps: seq<Step>)
    ensures IndexesHold(Run(sign, EMPTY, steps))
  {
    if steps != [] {
      RunHoldsIndexes(sign, steps[..|steps| - 1]);
      RunIsSound(sign, EMPTY, steps[..|steps| - 1]);
      TakeHoldsIndexes(sign, Run(sign, EMPTY, steps[..|steps| - 1]), steps[|steps| - 1]);
    }
  }

  /**
   Over every run, whatever digest signs it, no two committed entries share a number, a digest or a
   parent, and none is its own parent.
   */
  lemma {:induction false} NoTwoEntriesShare(sign: Signer, steps: seq<Step>, i: nat, j: nat)
    requires i < |Run(sign, EMPTY, steps).committed| && j < |Run(sign, EMPTY, steps).committed|
    ensures var rows := Run(sign, EMPTY, steps).committed;
            && rows[i].entryHash != rows[i].content.prevHash
            && (i != j ==>
                  && rows[i].content.seqNo != rows[j].content.seqNo
                  && rows[i].entryHash != rows[j].entryHash
                  && rows[i].content.prevHash != rows[j].content.prevHash)
  {
    RunHoldsIndexes(sign, steps);
    var rows := Run(sign, EMPTY, steps).committed;
    assert i < j ==> Apart(rows[i], rows[j]);
    assert j < i ==> Apart(rows[j], rows[i]);
  }

  // ------------------------------------------------------------ one transaction by itself

  function Alone(t: nat, n: nat, p: Payload): seq<Step> {
    [Begin(t), TakeLock(t), ReadSeq(t, n), ReadPrev(t, n), Append(t, p), Commit(t)]
  }

  lemma {:induction false} RunFurther(sign: Signer, s: Sys, steps: seq<Step>, more: seq<Step>)
    ensures Run(sign, s, steps + more) == Run(sign, Run(sign, s, steps), more)
  {
    if more == [] {
      assert steps + more == steps;
    } else {
      RunFurther(sign, s, steps, more[..|more| - 1]);
      assert (steps + more)[..|steps + more| - 1] == steps + more[..|more| - 1];
    }
  }

  /** Where a transaction by itself stands once it has the lock. */
  function Locked(s: Sys, t: nat, seqRead: Option<nat>, prevRead: Option<string>): Sys {
    Sys(s.committed, Some(t), s.txs[t := Tx([], seqRead, prevRead)])
  }

  lemma {:induction false} AloneLocks(sign: Signer, s: Sys, t: nat)
    requires s.lock.None? && t !in s.txs
    ensures Take(sign, Take(sign, s, Begin(t)), TakeLock(t)) == Locked(s, t, None, None)
  {
  }

  lemma {:induction false} AloneSees(sign: Signer, s: Sys, t: nat, seqRead: Option<nat>, prevRead: Option<string>)
    requires Chain(sign, s.committed)
    ensures var locked := Locked(s, t, seqRead, prevRead);
            && NextSeq(Seen(locked, t, |s.committed|)) == |s.committed|
            && LastHash(Seen(locked, t, |s.committed|)) == Head(s.committed, GENESIS)
  {
    HeadOfChain(sign, s.committed);
    assert Seen(Locked(s, t, seqRead, prevRead), t, |s.committed|) == s.committed;
  }

  lemma {:induction false} AloneReadsNumber(sign: Signer, s: Sys, t: nat)
    requires Chain(sign, s.committed)
    ensures Take(sign, Locked(s, t, None, None), ReadSeq(t, |s.committed|)) == Locked(s, t, Some(|s.committed|), None)
  {
    AloneSees(sign, s, t, None, None);
  }

  lemma {:induction false} AloneReadsParent(sign: Signer, s: Sys, t: nat)
    requires Chain(sign, s.committed)
    ensures Take(sign, Locked(s, t, Some(|s.committed|), None), ReadPrev(t, |s.committed|))
         == Locked(s, t, Some(|s.committed|), Some(Head(s.committed, GENESIS)))
  {
    AloneSees(sign, s, t, Some(|s.committed|), None);
  }

  /** Up to where it appends, a transaction with the lock has read the head there is. */
  lemma {:induction false} AloneReads(sign: Signer, s: Sys, t: nat)
    requires Sound(sign, s) && s.lock.None? && t !in s.txs
    ensures var n := |s.committed|;
            Take(sign, Take(sign, Take(sign, Take(sign, s, Begin(t)), TakeLock(t)), ReadSeq(t, n)), ReadPrev(t, n))
              == Locked(s, t, Some(n), Some(Head(s.committed, GENESIS)))
  {
    AloneLocks(sign, s, t);
    AloneReadsNumber(sign, s, t);
    AloneReadsParent(sign, s, t);
  }

  /** The one row it writes, and what is left when it has committed it. */
  lemma {:induction false} AloneWrites(sign: Signer, s: Sys, t: nat, p: Payload)
    requires Chain(sign, s.committed)
    ensures var ready := Locked(s, t, Some(|s.committed|), Some(Head(s.committed, GENESIS)));
            && Visible(ready, t) == s.committed
            && Written(sign, ready, t, p) == NextEntry(sign, s.committed, p)
  {
    HeadOfChain(sign, s.committed);
  }

  lemma {:induction false} AloneCommits(sign: Signer, s: Sys, t: nat, e: Entry)
    requires t !in s.txs && s.lock.None?
    ensures Take(sign, Sys(s.committed, Some(t), s.txs[t := Tx([] + [e], None, None)]), Commit(t))
         == Sys(s.committed + [e], None, s.txs)
  {
    assert s.txs[t := Tx([] + [e], None, None)] - {t} == s.txs;
  }

  lemma {:induction false} AloneAppends(sign: Signer, s: Sys, t: nat, p: Payload)
    requires Sound(sign, s) && s.lock.None? && t !in s.txs
    requires var rows := s.committed + [NextEntry(sign, s.committed, p)]; Unforged(sign, rows, rows, GENESIS)
    ensures var ready := Locked(s, t, Some(|s.committed|), Some(Head(s.committed, GENESIS)));
            Take(sign, Take(sign, ready, Append(t, p)), Commit(t))
              == Sys(s.committed + [NextEntry(sign, s.committed, p)], None, s.txs)
  {
    var ready := Locked(s, t, Some(|s.committed|), Some(Head(s.committed, GENESIS)));
    AloneWrites(sign, s, t, p);
    AloneIsSound(sign, s, t);
    CurrentAppendIsAccepted(sign, ready, t, p);
    AppendAlone(sign, s, t, p, ready);
    AloneCommits(sign, s, t, NextEntry(sign, s.committed, p));
  }

  lemma {:induction false} AppendAlone(sign: Signer, s: Sys, t: nat, p: Payload, ready: Sys)
    requires ready == Locked(s, t, Some(|s.committed|), Some(Head(s.committed, GENESIS)))
    requires RefusalOf(sign, ready, t, p).None? && Written(sign, ready, t, p) == NextEntry(sign, s.committed, p)
    ensures Take(sign, ready, Append(t, p))
         == Sys(s.committed, Some(t), s.txs[t := Tx([] + [NextEntry(sign, s.committed, p)], None, None)])
  {
  }

  lemma {:induction false} AloneIsSound(sign: Signer, s: Sys, t: nat)
    requires Sound(sign, s) && s.lock.None? && t !in s.txs
    ensures Sound(sign, Locked(s, t, Some(|s.committed|), Some(Head(s.committed, GENESIS))))
  {
    var n := |s.committed|;
    var begun := Take(sign, s, Begin(t));
    var locked := Take(sign, begun, TakeLock(t));
    TakeIsSound(sign, s, Begin(t));
    TakeIsSound(sign, begun, TakeLock(t));
    TakeIsSound(sign, locked, ReadSeq(t, n));
    TakeIsSound(sign, Take(sign, locked, ReadSeq(t, n)), ReadPrev(t, n));
    AloneReads(sign, s, t);
  }

  /**
   From any state a run reaches with the lock free, a transaction that takes the lock, reads all that is
   committed, appends and commits leaves the ledger one entry longer, and everything else as it was.
   */
  lemma {:induction false} AnAppendLands(sign: Signer, steps: seq<Step>, t: nat, p: Payload)
    requires var s := Run(sign, EMPTY, steps);
             && s.lock.None? && t !in s.txs
             && (var rows := s.committed + [NextEntry(sign, s.committed, p)]; Unforged(sign, rows, rows, GENESIS))
    ensures var s := Run(sign, EMPTY, steps);
            Run(sign, EMPTY, steps + Alone(t, |s.committed|, p))
              == Sys(s.committed + [NextEntry(sign, s.committed, p)], None, s.txs)
  {
    var s := Run(sign, EMPTY, steps);
    RunIsSound(sign, EMPTY, steps);
    RunFurther(sign, EMPTY, steps, Alone(t, |s.committed|, p));
    AloneReads(sign, s, t);
    AloneAppends(sign, s, t, p);
    SixSteps(sign, s, Begin(t), TakeLock(t), ReadSeq(t, |s.committed|), ReadPrev(t, |s.committed|), Append(t, p), Commit(t));
  }

  lemma {:induction false} SixSteps(sign: Signer, s: Sys, a: Step, b: Step, c: Step, d: Step, e: Step, f: Step)
    ensures Run(sign, s, [a, b, c, d, e, f])
         == Take(sign, Take(sign, Take(sign, Take(sign, Take(sign, Take(sign, s, a), b), c), d), e), f)
  {
    OneStep(sign, s, a);
    StepMore(sign, s, [a], b);
    StepMore(sign, s, [a, b], c);
    StepMore(sign, s, [a, b, c], d);
    StepMore(sign, s, [a, b, c, d], e);
    StepMore(sign, s, [a, b, c, d, e], f);
    assert [a] + [b] == [a, b] && [a, b] + [c] == [a, b, c] && [a, b, c] + [d] == [a, b, c, d];
    assert [a, b, c, d] + [e] == [a, b, c, d, e] && [a, b, c, d, e] + [f] == [a, b, c, d, e, f];
  }

  lemma {:induction false} StepMore(sign: Signer, s: Sys, steps: seq<Step>, step: Step)
    ensures Run(sign, s, steps + [step]) == Take(sign, Run(sign, s, steps), step)
  {
    assert (steps + [step])[..|steps|] == steps;
  }

  lemma {:induction false} OneStep(sign: Signer, s: Sys, a: Step)
    ensures Run(sign, s, [a]) == Take(sign, s, a)
  {
    assert [a][..0] == [];
  }
}
