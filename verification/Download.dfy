/**
 `download_resolved` of `catalog.rs`: one attempt to finish a staged file, and any run of
 attempts against any servers. The network is a function from the offset asked for to the
 chunks that arrive and how the transfer ends; the hash is any function.
 */
module Download {
  import opened Wrappers
  import opened Bytes
  import opened Digests

  const BUFFER: nat := 64 * 1024

  /** One non-empty read from the transfer. */
  type Chunk = c: seq<Byte> | c != [] witness [0]

  datatype Finish =
    | NeverStarted
    | Exit(success: bool)
    | ReadFails
    | WriteFails(chunk: Chunk, kept: nat)

  datatype Transfer = Transfer(chunks: seq<Chunk>, finish: Finish)

  type Server = nat -> Transfer

  datatype Error = NoTransfer | IoFailed | Interrupted | SizeMismatch | DigestMismatch

  /** The staged file, if there is one. */
  type Staged = Option<seq<Byte>>

  function Flatten(chunks: seq<Chunk>): seq<Byte> {
    if chunks == [] then [] else chunks[0] + Flatten(chunks[1..])
  }

  function OnDisk(staged: Staged): seq<Byte> {
    if staged.Some? then staged.value else []
  }

  /** The staged file that the transfer continues: an oversized or wrong complete one is removed. */
  function Kept(h: Hash, staged: Staged, size: nat, expected: Digest): Staged {
    if |OnDisk(staged)| > size then None
    else if |OnDisk(staged)| == size && size > 0 && h(OnDisk(staged)) != expected then None
    else staged
  }

  function Complete(h: Hash, staged: Staged, size: nat, expected: Digest): bool {
    |OnDisk(staged)| == size && size > 0 && h(OnDisk(staged)) == expected
  }

  /** What is decided once the transfer has ended with `bytes` on disk. */
  function Judge(h: Hash, bytes: seq<Byte>, size: nat, expected: Digest, success: bool): (Staged, Outcome<Error>) {
    if !success || |bytes| != size then
      if |bytes| < size then (Some(bytes), Fail(Interrupted)) else (None, Fail(SizeMismatch))
    else if h(bytes) != expected then (None, Fail(DigestMismatch))
    else (Some(bytes), Pass)
  }

  /** One attempt: what is on disk afterwards and what the caller is told. */
  function Attempt(h: Hash, staged: Staged, size: nat, expected: Digest, server: Server): (Staged, Outcome<Error>) {
    if Complete(h, staged, size, expected) then (staged, Pass)
    else
      var start := Kept(h, staged, size, expected);
      var transfer := server(|OnDisk(start)|);
      var received := OnDisk(start) + Flatten(transfer.chunks);
      match transfer.finish
      case NeverStarted => (start, Fail(NoTransfer))
      case ReadFails => (Some(received), Fail(IoFailed))
      case WriteFails(chunk, kept) =>
        (Some(received + chunk[..if kept <= |chunk| then kept else |chunk|]), Fail(IoFailed))
      case Exit(success) => Judge(h, received, size, expected, success)
  }

  // ---------------------------------------------------------------- as it runs

  class Stage {
    var staged: Staged

    constructor (staged: Staged)
      ensures this.staged == staged
    {
      this.staged := staged;
    }

    /** Feeds the staged prefix to the hasher, one buffer at a time. */
    method AbsorbPrefix() returns (absorbed: seq<Byte>)
      ensures absorbed == OnDisk(staged)
    {
      absorbed := [];
      var prefix := OnDisk(staged);
      var left := |prefix|;
      while left > 0
        invariant 0 <= left <= |prefix|
        invariant absorbed == prefix[..|prefix| - left]
      {
        var want := if left <= BUFFER then left else BUFFER;
        var at := |prefix| - left;
        assert prefix[..at] + prefix[at..at + want] == prefix[..at + want];
        absorbed := absorbed + prefix[at..at + want];
        left := left - want;
      }
    }

    /** `download_resolved`: at every turn of the loop the hasher holds exactly the staged bytes. */
    method Download(h: Hash, size: nat, expected: Digest, server: Server) returns (r: Outcome<Error>)
      modifies this
      ensures (staged, r) == Attempt(h, old(staged), size, expected, server)
    {
      ghost var before := staged;
      var offset := |OnDisk(staged)|;
      if offset > size {
        staged := None;
        offset := 0;
      }
      if offset == size && offset > 0 {
        if h(OnDisk(staged)) == expected {
          return Pass;
        }
        staged := None;
        offset := 0;
      }
      var hasher := AbsorbPrefix();
      var transfer := server(offset);
      if transfer.finish.NeverStarted? {
        return Fail(NoTransfer);
      }
      ghost var start := OnDisk(staged);
      staged := Some(OnDisk(staged));
      var chunks := transfer.chunks;
      assert chunks[0..] == chunks;
      for i := 0 to |chunks|
        invariant staged.Some? && hasher == staged.value
        invariant start + Flatten(chunks) == staged.value + Flatten(chunks[i..])
      {
        assert chunks[i..][0] == chunks[i] && chunks[i..][1..] == chunks[i + 1..];
        ConcatAssociative(staged.value, chunks[i], Flatten(chunks[i + 1..]));
        hasher := hasher + chunks[i];
        staged := Some(staged.value + chunks[i]);
      }
      assert chunks[|chunks|..] == [];
      assert staged.value + Flatten([]) == staged.value;
      match transfer.finish {
        case ReadFails => return Fail(IoFailed);
        case WriteFails(chunk, kept) =>
          staged := Some(staged.value + chunk[..if kept <= |chunk| then kept else |chunk|]);
          return Fail(IoFailed);
        case Exit(success) =>
          var written := |staged.value|;
          if !success || written != size {
            if written < size {
              return Fail(Interrupted);
            }
            staged := None;
            return Fail(SizeMismatch);
          }
          if h(hasher) != expected {
            staged := None;
            return Fail(DigestMismatch);
          }
          return Pass;
      }
    }
  }

  // ---------------------------------------------------------------- one attempt

  /** Success means both the size and the digest of the file on disk, whatever the server did. */
  lemma SuccessMeansChecked(h: Hash, staged: Staged, size: nat, expected: Digest, server: Server)
    requires Attempt(h, staged, size, expected, server).1.Pass?
    ensures var after := Attempt(h, staged, size, expected, server).0;
            |OnDisk(after)| == size && h(OnDisk(after)) == expected
  {
  }

  /**
   Every outcome of an attempt and the file it leaves. A complete file is taken as it is. A shorter
   one is continued, and any other is dropped first; `received` is what the transfer makes of it.
   */
  lemma AttemptMeaning(h: Hash, staged: Staged, size: nat, expected: Digest, server: Server)
    ensures var disk := OnDisk(staged);
            var complete := |disk| == size && size > 0 && h(disk) == expected;
            var from := if |disk| < size then disk else [];
            var (end, received) := (server(|from|).finish, from + Flatten(server(|from|).chunks));
            var (after, r) := Attempt(h, staged, size, expected, server);
            && (r == Pass <==> complete || (end == Exit(true) && |received| == size && h(received) == expected))
            && (r == Pass ==> after == if complete then staged else Some(received))
            && (r == Fail(DigestMismatch) <==>
                  !complete && end == Exit(true) && |received| == size && h(received) != expected)
            && (r == Fail(SizeMismatch) <==>
                  !complete && ((end == Exit(true) && |received| > size) || (end == Exit(false) && |received| >= size)))
            && (r == Fail(DigestMismatch) || r == Fail(SizeMismatch) ==> after == None)
            && (r == Fail(Interrupted) <==> !complete && end.Exit? && |received| < size)
            && (r == Fail(NoTransfer) <==> !complete && end.NeverStarted?)
            && (r == Fail(IoFailed) <==> !complete && (end.ReadFails? || end.WriteFails?))
            && (r == Fail(Interrupted) || (r == Fail(IoFailed) && end.ReadFails?) ==> after == Some(received))
            && (r == Fail(IoFailed) && end.WriteFails? ==>
                  after.Some? && received <= after.value <= received + end.chunk)
            && (r == Fail(NoTransfer) ==> OnDisk(after) == from)
  {
    hide Flatten;
    var disk := OnDisk(staged);
    assert |disk| == size == 0 ==> disk == [];
  }

  // ---------------------------------------------------------------- runs of attempts

  function Run(h: Hash, staged: Staged, size: nat, expected: Digest, servers: seq<Server>): Staged
    decreases |servers|
  {
    if servers == [] then staged
    else Run(h, Attempt(h, staged, size, expected, servers[0]).0, size, expected, servers[1..])
  }

  /** The failures that do not remove what was received. */
  predicate StopsOnTheWay(r: Outcome<Error>) {
    r in {Fail(NoTransfer), Fail(IoFailed), Fail(Interrupted)}
  }

  /** Every attempt of the run starts short of the size and stops on the way. */
  predicate OnlyInterrupted(h: Hash, staged: Staged, size: nat, expected: Digest, servers: seq<Server>)
    decreases |servers|
  {
    servers != [] ==>
      && |OnDisk(staged)| < size
      && StopsOnTheWay(Attempt(h, staged, size, expected, servers[0]).1)
      && OnlyInterrupted(h, Attempt(h, staged, size, expected, servers[0]).0, size, expected, servers[1..])
  }

  /**
   Through any run of interrupted attempts the file staged before it is never lost, cut or
   rewritten: what is staged afterwards continues it.
   */
  lemma {:induction false} FailureKeepsPrefix(h: Hash, staged: Staged, size: nat, expected: Digest,
                                              servers: seq<Server>)
    requires OnlyInterrupted(h, staged, size, expected, servers)
    ensures OnDisk(staged) <= OnDisk(Run(h, staged, size, expected, servers))
    decreases |servers|
  {
    if servers != [] {
      var after := Attempt(h, staged, size, expected, servers[0]).0;
      assert OnDisk(staged) <= OnDisk(after);
      FailureKeepsPrefix(h, after, size, expected, servers[1..]);
    }
  }

  /** A server that sends nothing but the true bytes from the offset on, though perhaps not all. */
  ghost predicate Truthful(server: Server, content: seq<Byte>) {
    forall offset: nat :: offset <= |content| ==> TruthfulAt(server, content, offset)
  }

  predicate TruthfulAt(server: Server, content: seq<Byte>, offset: nat)
    requires offset <= |content|
  {
    var transfer := server(offset);
    && Flatten(transfer.chunks) <= content[offset..]
    && (transfer.finish.WriteFails? ==> Flatten(transfer.chunks) + transfer.finish.chunk <= content[offset..])
  }

  /** A truthful transfer that runs to its end. */
  ghost predicate Delivers(server: Server, content: seq<Byte>) {
    forall offset: nat :: offset <= |content| ==> DeliversAt(server, content, offset)
  }

  predicate DeliversAt(server: Server, content: seq<Byte>, offset: nat)
    requires offset <= |content|
  {
    Flatten(server(offset).chunks) == content[offset..] && server(offset).finish == Exit(true)
  }

  lemma PrefixThenRest(start: seq<Byte>, more: seq<Byte>, content: seq<Byte>)
    requires start <= content && more <= content[|start|..]
    ensures start + more <= content
  {
  }

  lemma TruthKeepsPrefix(h: Hash, staged: Staged, content: seq<Byte>, expected: Digest, server: Server)
    requires Truthful(server, content) && OnDisk(staged) <= content
    ensures OnDisk(Attempt(h, staged, |content|, expected, server).0) <= content
  {
    hide Flatten, Judge, Truthful;
    var start := OnDisk(Kept(h, staged, |content|, expected));
    assert TruthfulAt(server, content, |start|) by {
      TruthAt(server, content, |start|);
    }
    var transfer := server(|start|);
    var more := Flatten(transfer.chunks);
    PrefixThenRest(start, more, content);
    match transfer.finish
    case WriteFails(chunk, kept) =>
      PrefixThenRest(start, more + chunk, content);
      PartialWrite(start, more, chunk, if kept <= |chunk| then kept else |chunk|, content);
    case Exit(success) => JudgeKeeps(h, start + more, |content|, expected, success);
    case _ =>
  }

  lemma TruthAt(server: Server, content: seq<Byte>, offset: nat)
    requires Truthful(server, content) && offset <= |content|
    ensures TruthfulAt(server, content, offset)
  {
  }

  lemma PartialWrite(start: seq<Byte>, more: seq<Byte>, chunk: seq<Byte>, kept: nat, content: seq<Byte>)
    requires kept <= |chunk| && start + (more + chunk) <= content
    ensures start + more + chunk[..kept] <= content
  {
    assert start + more + chunk[..kept] == (start + (more + chunk))[..|start| + |more| + kept];
  }

  lemma JudgeKeeps(h: Hash, bytes: seq<Byte>, size: nat, expected: Digest, success: bool)
    ensures OnDisk(Judge(h, bytes, size, expected, success).0) <= bytes
  {
  }

  /** Over any run of truthful servers the staged file is always a prefix of the content. */
  lemma {:induction false} TruthfulRunKeepsPrefix(h: Hash, staged: Staged, content: seq<Byte>, expected: Digest,
                                                  servers: seq<Server>)
    requires OnDisk(staged) <= content
    requires forall i :: 0 <= i < |servers| ==> Truthful(servers[i], content)
    ensures OnDisk(Run(h, staged, |content|, expected, servers)) <= content
    decreases |servers|
  {
    hide Attempt, Truthful;
    if servers != [] {
      TruthKeepsPrefix(h, staged, content, expected, servers[0]);
      TruthfulRunKeepsPrefix(h, Attempt(h, staged, |content|, expected, servers[0]).0, content, expected, servers[1..]);
    }
  }

  /**
   With truthful servers success means the content itself, whatever the hash: what is staged
   is a prefix of the content and has its size.
   */
  lemma TruthfulSuccessIsContent(h: Hash, staged: Staged, content: seq<Byte>, expected: Digest,
                                 servers: seq<Server>, last: Server)
    requires OnDisk(staged) <= content && Truthful(last, content)
    requires forall i :: 0 <= i < |servers| ==> Truthful(servers[i], content)
    requires Attempt(h, Run(h, staged, |content|, expected, servers), |content|, expected, last).1.Pass?
    ensures OnDisk(Attempt(h, Run(h, staged, |content|, expected, servers), |content|, expected, last).0) == content
  {
    hide Attempt, Run, Truthful;
    var before := Run(h, staged, |content|, expected, servers);
    TruthfulRunKeepsPrefix(h, staged, content, expected, servers);
    TruthKeepsPrefix(h, before, content, expected, last);
    SuccessMeansChecked(h, before, |content|, expected, last);
  }

  /** A byte string of the same size that the hash cannot tell from the content. */
  predicate Forges(h: Hash, content: seq<Byte>, x: seq<Byte>) {
    |x| == |content| && x != content && h(x) == h(content)
  }

  /** Some run of some servers ends in success with `x` staged. */
  ghost predicate CanStage(h: Hash, content: seq<Byte>, x: seq<Byte>) {
    exists staged: Staged, servers: seq<Server>, last: Server ::
      Attempt(h, Run(h, staged, |content|, h(content), servers), |content|, h(content), last) == (Some(x), Pass)
  }

  /** A server that sends `x` from any offset. */
  function Sends(x: seq<Byte>): Server {
    var chunks: seq<Chunk> := if x == [] then [] else [x];
    offset => Transfer(chunks, Exit(true))
  }

  lemma FreshDelivery(h: Hash, content: seq<Byte>, x: seq<Byte>)
    requires x == content || Forges(h, content, x)
    ensures Attempt(h, None, |content|, h(content), Sends(x)) == (Some(x), Pass)
  {
    var chunks := Sends(x)(0).chunks;
    assert Flatten(chunks) == x by {
      if x != [] {
        assert chunks[1..] == [] && x + [] == x;
      }
    }
    assert [] + x == x;
  }

  /**
   After any run of arbitrary servers, success stages the content or a forgery of it, and
   every forgery can be staged: the check is worth exactly what the hash is worth at the content.
   */
  lemma SuccessMeansContent(h: Hash, content: seq<Byte>, x: seq<Byte>)
    ensures CanStage(h, content, x) <==> x == content || Forges(h, content, x)
  {
    if CanStage(h, content, x) {
      hide Attempt, Run;
      var staged: Staged, servers: seq<Server>, last: Server :|
        Attempt(h, Run(h, staged, |content|, h(content), servers), |content|, h(content), last) == (Some(x), Pass);
      SuccessMeansChecked(h, Run(h, staged, |content|, h(content), servers), |content|, h(content), last);
    }
    if x == content || Forges(h, content, x) {
      FreshDelivery(h, content, x);
      assert Run(h, None, |content|, h(content), []) == None;
    }
  }

  /** A prefix of the content is finished by one delivery. */
  lemma DeliveryFinishesPrefix(h: Hash, staged: Staged, content: seq<Byte>, server: Server)
    requires Delivers(server, content) && OnDisk(staged) <= content
    ensures Attempt(h, staged, |content|, h(content), server).1.Pass?
    ensures OnDisk(Attempt(h, staged, |content|, h(content), server).0) == content
  {
    hide Flatten;
    var start := OnDisk(Kept(h, staged, |content|, h(content)));
    assert DeliversAt(server, content, |start|);
    assert start + content[|start|..] == content;
    if Complete(h, staged, |content|, h(content)) {
      assert OnDisk(staged) == content;
    }
  }

  /**
   Whatever an earlier server left on disk, two deliveries are enough: the first succeeds or
   removes the file, and the second starts afresh.
   */
  lemma TwoDeliveriesSuffice(h: Hash, staged: Staged, content: seq<Byte>, first: Server, second: Server)
    requires Delivers(first, content) && Delivers(second, content)
    ensures var (after, r) := Attempt(h, staged, |content|, h(content), first);
            r.Pass? || (after == None && Attempt(h, after, |content|, h(content), second).1.Pass?)
  {
    hide Flatten;
    var start := OnDisk(Kept(h, staged, |content|, h(content)));
    assert DeliversAt(first, content, |start|);
    DeliveryFinishesPrefix(h, None, content, second);
  }
}
