/**
 Publishing a compressed interface document to its on-chain account: create it, then
 append chunk by chunk, resuming after any crash.
 */
module IdlPublish {
  import opened Arithmetic
  import opened Bytes

  const HEADER_LEN: nat := 44
  const MAX_SPACE_PER_OP: nat := 10_000
  const IDL_WRITE_CHUNK: nat := 800

  /** The account as the program keeps it: the room allocated for data, and the data appended so far. */
  datatype Account = Absent | Stored(capacity: nat, data: seq<Byte>)

  datatype PublishResult = Published | RpcError | PrefixMismatch | VerifyFailed

  /** What becomes of one call: it works, it fails before taking effect, or it takes effect and the answer is lost. */
  datatype Rpc = Works | FailsBefore | FailsAfter

  // ---------------------------------------------------------------- the program's handlers

  /** Creation allocates for the announced length, but never more than one operation may. */
  function Create(a: Account, length: nat): Account {
    if a.Absent? then Stored(Min(HEADER_LEN + length, MAX_SPACE_PER_OP) - HEADER_LEN, []) else a
  }

  predicate CreateSucceeds(a: Account) {
    a.Absent?
  }

  predicate WriteSucceeds(a: Account, chunk: seq<Byte>) {
    a.Stored? && |a.data| + |chunk| <= a.capacity
  }

  /** Writing appends at the current length; a chunk that does not fit is refused. */
  function Write(a: Account, chunk: seq<Byte>): Account {
    if WriteSucceeds(a, chunk) then a.(data := a.data + chunk) else a
  }

  // ---------------------------------------------------------------- one run

  /** Everything still to append, in chunks, one call each. */
  function WriteAll(a: Account, rest: seq<Byte>, env: nat -> Rpc, t: nat): (Account, bool, nat)
    decreases |rest|
  {
    if rest == [] then (a, true, t)
    else
      var n := Min(IDL_WRITE_CHUNK, |rest|);
      var landed := if env(t).FailsBefore? then a else Write(a, rest[..n]);
      if !env(t).Works? || !WriteSucceeds(a, rest[..n]) then (landed, false, t + 1)
      else WriteAll(landed, rest[n..], env, t + 1)
  }

  /** Reading back and comparing decides success; nothing the run believes about itself does. */
  function Verify(a: Account, doc: seq<Byte>, rpc: Rpc): PublishResult {
    if !rpc.Works? || a.Absent? then RpcError
    else if a.data == doc then Published
    else VerifyFailed
  }

  function Append(a: Account, doc: seq<Byte>, written: nat, env: nat -> Rpc, t: nat): (Account, PublishResult)
    requires written <= |doc|
  {
    var (after, ok, now) := WriteAll(a, doc[written..], env, t);
    if !ok then (after, RpcError) else (after, Verify(after, doc, env(now)))
  }

  /** One run: any failed read of the account counts as its absence. */
  function Publish(a: Account, doc: seq<Byte>, env: nat -> Rpc): (Account, PublishResult) {
    if a.Absent? || !env(0).Works? then
      var created := if env(1).FailsBefore? then a else Create(a, |doc|);
      if !env(1).Works? || !CreateSucceeds(a) then (created, RpcError)
      else Append(created, doc, 0, env, 2)
    else if |a.data| <= |doc| && doc[..|a.data|] == a.data then Append(a, doc, |a.data|, env, 1)
    else (a, PrefixMismatch)
  }

  /** The account on chain and the run that works on it. */
  class IdlAccount {
    var account: Account

    constructor ()
      ensures account == Absent
    {
      account := Absent;
    }

    method PublishIdl(doc: seq<Byte>, env: nat -> Rpc) returns (r: PublishResult)
      modifies this
      ensures (account, r) == Publish(old(account), doc, env)
    {
      var t := 0;
      var written := 0;
      if account.Absent? || !env(0).Works? {
        t := 2;
        var succeeds := CreateSucceeds(account);
        if !env(1).FailsBefore? {
          account := Create(account, |doc|);
        }
        if !env(1).Works? || !succeeds {
          return RpcError;
        }
      } else {
        t := 1;
        if !(|account.data| <= |doc| && doc[..|account.data|] == account.data) {
          return PrefixMismatch;
        }
        written := |account.data|;
      }
      ghost var goal := WriteAll(account, doc[written..], env, t);
      while written < |doc|
        invariant 0 <= written <= |doc|
        invariant WriteAll(account, doc[written..], env, t) == goal
        decreases |doc| - written
      {
        var n := Min(IDL_WRITE_CHUNK, |doc| - written);
        var chunk := doc[written..written + n];
        assert chunk == doc[written..][..n];
        assert doc[written + n..] == doc[written..][n..];
        var succeeds := WriteSucceeds(account, chunk);
        if !env(t).FailsBefore? {
          account := Write(account, chunk);
        }
        if !env(t).Works? || !succeeds {
          return RpcError;
        }
        t := t + 1;
        written := written + n;
      }
      r := Verify(account, doc, env(t));
    }
  }

  // ---------------------------------------------------------------- safety

  /** What is stored is a prefix of the document, in an account allocated for it. */
  ghost predicate PrefixOf(a: Account, doc: seq<Byte>) {
    a.Stored? ==> a.data <= doc && a.capacity == Min(|doc|, MAX_SPACE_PER_OP - HEADER_LEN)
  }

  lemma {:induction false} WriteAllKeepsPrefix(a: Account, doc: seq<Byte>, written: nat, env: nat -> Rpc, t: nat)
    requires a.Stored? && written <= |doc| && a.data == doc[..written] && PrefixOf(a, doc)
    ensures var (after, ok, now) := WriteAll(a, doc[written..], env, t);
            && after.Stored? && PrefixOf(after, doc)
            && a.data <= after.data
            && (ok ==> after.data == doc)
    decreases |doc| - written
  {
    var rest := doc[written..];
    if rest != [] {
      var n := Min(IDL_WRITE_CHUNK, |rest|);
      assert doc[..written] + rest[..n] == doc[..written + n];
      assert rest[n..] == doc[written + n..];
      if env(t).Works? && WriteSucceeds(a, rest[..n]) {
        WriteAllKeepsPrefix(Write(a, rest[..n]), doc, written + n, env, t + 1);
      }
    } else {
      assert doc[..written] == doc;
    }
  }

  /** One run, whatever fails in it, leaves a prefix, never shortens it, and only reports success for the whole. */
  lemma RunKeepsPrefix(a: Account, doc: seq<Byte>, env: nat -> Rpc)
    requires PrefixOf(a, doc)
    ensures var (after, r) := Publish(a, doc, env);
            && PrefixOf(after, doc)
            && (a.Stored? ==> after.Stored? && a.data <= after.data)
            && (r == Published || r == RpcError)
            && (r == Published ==> after.Stored? && after.data == doc)
  {
    assert a.Stored? ==> a.data == doc[..|a.data|];
    if a.Absent? || !env(0).Works? {
      if env(1).Works? && CreateSucceeds(a) {
        WriteAllKeepsPrefix(Create(a, |doc|), doc, 0, env, 2);
      }
    } else {
      WriteAllKeepsPrefix(a, doc, |a.data|, env, 1);
    }
  }

  function Rerun(a: Account, doc: seq<Byte>, envs: seq<nat -> Rpc>): Account
    decreases |envs|
  {
    if envs == [] then a else Rerun(Publish(a, doc, envs[0]).0, doc, envs[1..])
  }

  /** Any number of crashed runs on one document: what is stored stays a prefix of it and only grows. */
  lemma {:induction false} EveryRerunKeepsPrefix(a: Account, doc: seq<Byte>, envs: seq<nat -> Rpc>)
    requires PrefixOf(a, doc)
    ensures var after := Rerun(a, doc, envs);
            PrefixOf(after, doc) && (a.Stored? ==> after.Stored? && a.data <= after.data)
    decreases |envs|
  {
    if envs != [] {
      RunKeepsPrefix(a, doc, envs[0]);
      EveryRerunKeepsPrefix(Publish(a, doc, envs[0]).0, doc, envs[1..]);
    }
  }

  /** Success means equality, whatever the account held before. */
  lemma SuccessMeansEquality(a: Account, doc: seq<Byte>, env: nat -> Rpc)
    requires Publish(a, doc, env).1 == Published
    ensures Publish(a, doc, env).0.Stored? && Publish(a, doc, env).0.data == doc
  {
  }

  // ---------------------------------------------------------------- completion

  ghost predicate AllWork(env: nat -> Rpc) {
    forall t: nat :: env(t).Works?
  }

  lemma {:induction false} WriteAllCompletes(a: Account, doc: seq<Byte>, written: nat, env: nat -> Rpc, t: nat)
    requires AllWork(env) && a.Stored? && written <= |doc| && a.data == doc[..written] && |doc| <= a.capacity
    ensures var (after, ok, now) := WriteAll(a, doc[written..], env, t); ok && after == a.(data := doc)
    decreases |doc| - written
  {
    var rest := doc[written..];
    if rest != [] {
      var n := Min(IDL_WRITE_CHUNK, |rest|);
      assert doc[..written] + rest[..n] == doc[..written + n];
      assert rest[n..] == doc[written + n..];
      WriteAllCompletes(Write(a, rest[..n]), doc, written + n, env, t + 1);
    } else {
      assert doc[..written] == doc;
    }
  }

  /** It takes one call for every chunk of `IDL_WRITE_CHUNK` bytes, and one for a last shorter one. */
  lemma {:induction false} WriteAllCalls(a: Account, rest: seq<Byte>, env: nat -> Rpc, t: nat)
    requires AllWork(env) && a.Stored? && |a.data| + |rest| <= a.capacity
    ensures var (after, ok, now) := WriteAll(a, rest, env, t);
            ok && IDL_WRITE_CHUNK * (now - t) - IDL_WRITE_CHUNK < |rest| <= IDL_WRITE_CHUNK * (now - t)
    ensures rest == [] ==> WriteAll(a, rest, env, t).2 == t
    decreases |rest|
  {
    if rest != [] {
      var n := Min(IDL_WRITE_CHUNK, |rest|);
      assert env(t).Works?;
      WriteAllCalls(Write(a, rest[..n]), rest[n..], env, t + 1);
    }
  }

  /**
   After any number of crashed runs, a run in which nothing fails publishes the document
   if and only if it fits in what a single creation allocates: 9956 bytes. Publishing
   never enlarges the account, so a longer document can never be completed.
   */
  lemma UndisturbedRunPublishesIff(a: Account, doc: seq<Byte>, envs: seq<nat -> Rpc>, env: nat -> Rpc)
    requires PrefixOf(a, doc) && (a.Stored? ==> |a.data| <= a.capacity) && AllWork(env)
    ensures Publish(Rerun(a, doc, envs), doc, env).1 == Published <==> |doc| <= MAX_SPACE_PER_OP - HEADER_LEN
  {
    EveryRerunKeepsPrefix(a, doc, envs);
    RerunFits(a, doc, envs);
    var b := Rerun(a, doc, envs);
    if |doc| <= MAX_SPACE_PER_OP - HEADER_LEN {
      CompletesFrom(b, doc, env);
    } else {
      PublishFits(b, doc, env);
      RunKeepsPrefix(b, doc, env);
    }
  }

  lemma CompletesFrom(a: Account, doc: seq<Byte>, env: nat -> Rpc)
    requires AllWork(env) && PrefixOf(a, doc) && |doc| <= MAX_SPACE_PER_OP - HEADER_LEN
    ensures Publish(a, doc, env).1 == Published
  {
    assert env(0).Works? && env(1).Works?;
    if a.Absent? {
      var created := Create(a, |doc|);
      assert created.data == doc[..0];
      WriteAllCompletes(created, doc, 0, env, 2);
      var (after, ok, now) := WriteAll(created, doc[0..], env, 2);
      assert env(now).Works?;
    } else {
      assert a.data == doc[..|a.data|];
      WriteAllCompletes(a, doc, |a.data|, env, 1);
      var (after, ok, now) := WriteAll(a, doc[|a.data|..], env, 1);
      assert env(now).Works?;
    }
  }

  lemma {:induction false} WriteAllFits(a: Account, rest: seq<Byte>, env: nat -> Rpc, t: nat)
    requires a.Stored? && |a.data| <= a.capacity
    ensures var after := WriteAll(a, rest, env, t).0;
            after.Stored? && after.capacity == a.capacity && |after.data| <= after.capacity
    decreases |rest|
  {
    if rest != [] {
      var n := Min(IDL_WRITE_CHUNK, |rest|);
      if env(t).Works? && WriteSucceeds(a, rest[..n]) {
        WriteAllFits(Write(a, rest[..n]), rest[n..], env, t + 1);
      }
    }
  }

  lemma PublishFits(a: Account, doc: seq<Byte>, env: nat -> Rpc)
    requires a.Stored? ==> |a.data| <= a.capacity
    ensures var after := Publish(a, doc, env).0; after.Stored? ==> |after.data| <= after.capacity
  {
    if a.Absent? || !env(0).Works? {
      if env(1).Works? && CreateSucceeds(a) {
        WriteAllFits(Create(a, |doc|), doc[0..], env, 2);
      }
    } else if |a.data| <= |doc| && doc[..|a.data|] == a.data {
      WriteAllFits(a, doc[|a.data|..], env, 1);
    }
  }

  lemma {:induction false} RerunFits(a: Account, doc: seq<Byte>, envs: seq<nat -> Rpc>)
    requires a.Stored? ==> |a.data| <= a.capacity
    ensures var after := Rerun(a, doc, envs); after.Stored? ==> |after.data| <= after.capacity
    decreases |envs|
  {
    if envs != [] {
      PublishFits(a, doc, envs[0]);
      RerunFits(Publish(a, doc, envs[0]).0, doc, envs[1..]);
    }
  }

  // ---------------------------------------------------------------- writes still in flight

  /**
   Prefix safety needs every earlier write to have settled. A chunk of the document that was
   given up for lost, and lands after a rerun has appended whatever it has by then, leaves a
   prefix if and only if it no longer fits or the document happens to continue with it.
   */
  lemma LateWriteKeepsPrefixIff(a: Account, doc: seq<Byte>, from: nat, n: nat)
    requires a.Stored? && PrefixOf(a, doc) && from + n <= |doc|
    ensures var stored := |a.data|;
            PrefixOf(Write(a, doc[from..from + n]), doc) <==>
              a.capacity < stored + n || doc[stored..stored + n] == doc[from..from + n]
  {
    var stored, late := |a.data|, Write(a, doc[from..from + n]);
    if stored + n <= a.capacity {
      assert late.data[stored..] == doc[from..from + n];
      assert doc[..stored + n] == doc[..stored] + doc[stored..stored + n];
      if late.data <= doc {
        assert late.data == doc[..stored + n];
        assert late.data[stored..] == doc[stored..stored + n];
      }
    }
  }

  /** Once the prefix is broken no run repairs it: each one that reads the account refuses, and none changes it. */
  lemma {:induction false} BrokenPrefixStays(a: Account, doc: seq<Byte>, envs: seq<nat -> Rpc>, env: nat -> Rpc)
    requires a.Stored? && !(a.data <= doc)
    ensures Rerun(a, doc, envs) == a
    ensures Publish(a, doc, env) == (a, if env(0).Works? then PrefixMismatch else RpcError)
    decreases |envs|
  {
    if |a.data| <= |doc| {
      assert doc[..|a.data|] != a.data;
    }
    if envs != [] {
      BrokenPrefixStays(a, doc, envs[1..], envs[0]);
    }
  }
}
