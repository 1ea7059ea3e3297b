/**
 Collecting committee signatures up to a threshold. Every validator is asked in
 its own goroutine and sends one result to a buffered channel; the collector
 reads the channel until it has enough signatures, then cancels the others.
 */
module Committee {
  import opened Prelude

  const SIGNATURE_SIZE := 65

  datatype Reply = Reply(failed: bool, signature: seq<int>)

  predicate Good(r: Reply) {
    !r.failed && |r.signature| == SIGNATURE_SIZE
  }

  /** A result, with the index of the validator it comes from. */
  datatype Message = Message(index: nat, reply: Reply)

  function Entries(messages: seq<Message>): seq<Message> {
    Filter(messages, (m: Message) => Good(m.reply))
  }

  function EntriesOfNext(messages: seq<Message>, m: Message): seq<Message> {
    Entries(messages) + if Good(m.reply) then [m] else []
  }

  lemma {:induction false} EntriesGrow(messages: seq<Message>, m: Message)
    ensures Entries(messages + [m]) == EntriesOfNext(messages, m)
  {
    if messages == [] {
      assert [m][1..] == [];
    } else {
      EntriesGrow(messages[1..], m);
      assert (messages + [m])[1..] == messages[1..] + [m];
    }
  }

  // ----- the collector's loop -----

  /** How many entries are collected before the loop stops: it checks only after adding one. */
  function Wanted(threshold: uint64): nat {
    if threshold == 0 then 1 else threshold
  }

  /**
   Reads the results in order of arrival until enough good ones are in. None is
   the error of a threshold that was not reached.
   */
  method ProcessResults(results: seq<Message>, threshold: uint64) returns (multisig: Option<seq<Message>>, read: nat)
    ensures multisig.Some? <==> |Entries(results)| >= threshold
    ensures multisig.Some? ==> multisig.value == Entries(results)[..Min(Wanted(threshold), |Entries(results)|)]
    ensures read <= |results| && (multisig.Some? ==> multisig.value == Entries(results[..read]))
    ensures read < |results| ==> |Entries(results[..read])| == Wanted(threshold)
    ensures multisig.Some? ==> forall m :: m in multisig.value ==> m in results && !m.reply.failed && |m.reply.signature| == 65
  {
    var signatures: seq<Message> := [];
    read := 0;
    while read < |results|
      invariant read <= |results|
      invariant signatures == Entries(results[..read]) && |signatures| < Wanted(threshold)
    {
      var res := results[read];
      EntriesGrow(results[..read], res);
      assert results[..read] + [res] == results[..read + 1];
      read := read + 1;
      if res.reply.failed { continue; }
      if |res.reply.signature| != SIGNATURE_SIZE { continue; }
      signatures := signatures + [res];
      if |signatures| >= threshold { break; }
    }
    EntriesSplit(results, read);
    if |signatures| < threshold { return None, read; }
    EntriesAreGood(results[..read]);
    return Some(signatures), read;
  }

  lemma {:induction false} EntriesAreGood(messages: seq<Message>)
    ensures forall m :: m in Entries(messages) <==> m in messages && !m.reply.failed && |m.reply.signature| == 65
  {
    if messages != [] {
      EntriesAreGood(messages[1..]);
      assert messages == [messages[0]] + messages[1..];
    }
  }

  lemma {:induction false} EntriesSplit(messages: seq<Message>, k: nat)
    requires k <= |messages|
    ensures Entries(messages[..k]) <= Entries(messages)
    ensures k == |messages| ==> Entries(messages[..k]) == Entries(messages)
    decreases |messages| - k
  {
    if k == |messages| {
      assert messages[..k] == messages;
    } else {
      EntriesSplit(messages, k + 1);
      EntriesGrow(messages[..k], messages[k]);
      assert messages[..k] + [messages[k]] == messages[..k + 1];
    }
  }
}
