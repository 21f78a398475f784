// membershipchainservice/updatehistoryservice.go: the flattening of the signer
// sets in SendHistory and their rebuilding in ExecReplyHistory; and the epochs of
// entry that membershipchainservice/getterservice.go reads from them.

module History {
  import opened Values
  import opened SignerStorage

  // The part of a ReplyHistory that carries the signer sets.
  datatype ReplyHistory = ReplyHistory(index: seq<nat>, key: seq<ServerID>, value: seq<Proof>) {
    ghost predicate Valid() {
      |index| == |key| == |value|
    }
  }

  // The message lists every entry of every set once, epoch by epoch.
  ghost predicate IsFlat(signers: seq<SignersSet>, msg: ReplyHistory) {
    && msg.Valid() && InOrder(msg)
    && (forall i :: 0 <= i < |msg.index| ==> IsEntry(signers, msg, i))
    && forall e, k :: 0 <= e < |signers| && k in signers[e] ==> Listed(msg, e, k)
  }

  ghost predicate InOrder(msg: ReplyHistory)
    requires msg.Valid()
  {
    forall i, j :: 0 <= i < j < |msg.index| ==>
      msg.index[i] < msg.index[j] || (msg.index[i] == msg.index[j] && msg.key[i] != msg.key[j])
  }

  ghost predicate IsEntry(signers: seq<SignersSet>, msg: ReplyHistory, i: nat)
    requires msg.Valid() && i < |msg.index|
  {
    msg.index[i] < |signers| && msg.key[i] in signers[msg.index[i]] && msg.value[i] == signers[msg.index[i]][msg.key[i]]
  }

  ghost predicate Listed(msg: ReplyHistory, e: nat, k: ServerID)
    requires msg.Valid()
  {
    exists i :: 0 <= i < |msg.index| && msg.index[i] == e && msg.key[i] == k
  }

  function Appended(msg: ReplyHistory, e: nat, k: ServerID, v: Proof): ReplyHistory {
    ReplyHistory(msg.index + [e], msg.key + [k], msg.value + [v])
  }

  // The loop over one set, its entries coming in any order.
  method FlattenSet(msg: ReplyHistory, signers: seq<SignersSet>, idx: nat) returns (out: ReplyHistory)
    requires idx < |signers| && IsFlat(signers[..idx], msg)
    ensures IsFlat(signers[..idx + 1], out)
  {
    out := msg;
    var rest := signers[idx].Keys;
    forall i | 0 <= i < |msg.index|
      ensures msg.index[i] < idx && IsEntry(signers, msg, i)
    {
      assert IsEntry(signers[..idx], msg, i);
    }
    while rest != {}
      invariant rest <= signers[idx].Keys
      invariant FlatSoFar(signers, out, idx, rest)
      decreases rest
    {
      var k :| k in rest;
      FlatMore(signers, out, idx, rest, k);
      out := Appended(out, idx, k, signers[idx][k]);
      rest := rest - {k};
    }
  }

  // All sets below idx are listed, and those of idx that are not in rest.
  ghost predicate FlatSoFar(signers: seq<SignersSet>, msg: ReplyHistory, idx: nat, rest: set<ServerID>)
    requires idx < |signers|
  {
    && msg.Valid() && InOrder(msg)
    && (forall i :: 0 <= i < |msg.index| ==> msg.index[i] <= idx && IsEntry(signers, msg, i))
    && (forall i :: 0 <= i < |msg.index| && msg.index[i] == idx ==> msg.key[i] !in rest)
    && forall e, k :: 0 <= e <= idx && k in signers[e] && (e < idx || k !in rest) ==> Listed(msg, e, k)
  }

  lemma FlatMore(signers: seq<SignersSet>, msg: ReplyHistory, idx: nat, rest: set<ServerID>, k: ServerID)
    requires idx < |signers| && FlatSoFar(signers, msg, idx, rest) && k in rest && k in signers[idx]
    ensures FlatSoFar(signers, Appended(msg, idx, k, signers[idx][k]), idx, rest - {k})
  {
    var out := Appended(msg, idx, k, signers[idx][k]);
    var n := |msg.index|;
    assert out.index[n] == idx && out.key[n] == k;
    forall i | 0 <= i < |out.index|
      ensures out.index[i] <= idx && IsEntry(signers, out, i)
    {
      assert i < n ==> IsEntry(signers, msg, i);
    }
    forall e, k' | 0 <= e <= idx && k' in signers[e] && (e < idx || k' !in rest - {k})
      ensures Listed(out, e, k')
    {
      if !(e == idx && k' == k) {
        assert Listed(msg, e, k');
        var i :| 0 <= i < n && msg.index[i] == e && msg.key[i] == k';
        assert out.index[i] == e && out.key[i] == k';
      }
    }
  }

  method SendHistory(s: Service) returns (msg: ReplyHistory)
    ensures IsFlat(s.Signers, msg)
  {
    msg := ReplyHistory([], [], []);
    for idx := 0 to |s.Signers|
      invariant IsFlat(s.Signers[..idx], msg)
    {
      msg := FlattenSet(msg, s.Signers, idx);
    }
    assert s.Signers[..|s.Signers|] == s.Signers;
  }

  // The sets after the first n entries of the message have been put in place.
  ghost function Rebuilt(msg: ReplyHistory, n: nat, length: nat): (r: seq<SignersSet>)
    requires msg.Valid() && n <= |msg.index| && forall i :: 0 <= i < |msg.index| ==> msg.index[i] < length
    ensures |r| == length
  {
    if n == 0 then seq(length, i => map[])
    else
      var r := Rebuilt(msg, n - 1, length);
      r[msg.index[n - 1] := r[msg.index[n - 1]][msg.key[n - 1] := msg.value[n - 1]]]
  }

  // ExecReplyHistory: with no entry at all the source fails on its last index.
  // The epoch put on the channel is the later of the own one and the last set's.
  method ExecReplyHistory(s: Service, msg: ReplyHistory) returns (epoch: int)
    requires msg.Valid() && msg.index != []
    requires forall i :: 0 <= i < |msg.index| ==> msg.index[i] <= msg.index[|msg.index| - 1]
    modifies s`Signers
    ensures s.Signers == Rebuilt(msg, |msg.index|, msg.index[|msg.index| - 1] + 1)
    ensures epoch == if s.e < |s.Signers| - 1 then |s.Signers| - 1 else s.e
  {
    var length := msg.index[|msg.index| - 1] + 1;
    var signers: seq<SignersSet> := seq(length, i => map[]);
    for i := 0 to |msg.index|
      invariant |signers| == length && signers == Rebuilt(msg, i, length)
    {
      var entry: SignersSet := signers[msg.index[i]][msg.key[i] := msg.value[i]];
      signers := signers[msg.index[i] := entry];
    }
    s.Signers := signers;
    var l := |s.Signers|;
    if s.e < l - 1 {
      epoch := l - 1;
    } else {
      epoch := s.e;
    }
  }

  // An entry put in place comes from the original sets, and stays there.
  lemma {:induction false} RebuiltIsWithin(signers: seq<SignersSet>, msg: ReplyHistory, n: nat, length: nat, e: nat)
    requires IsFlat(signers, msg) && n <= |msg.index| && e < length <= |signers|
    requires forall i :: 0 <= i < |msg.index| ==> msg.index[i] < length
    ensures var r := Rebuilt(msg, n, length);
            && (forall k :: k in r[e] ==> k in signers[e] && r[e][k] == signers[e][k])
            && forall i :: 0 <= i < n && msg.index[i] == e ==> msg.key[i] in r[e]
  {
    if n > 0 {
      RebuiltIsWithin(signers, msg, n - 1, length, e);
      assert IsEntry(signers, msg, n - 1);
    }
  }

  // The last epoch with a signer, one more than that if there is one at all.
  ghost predicate LastSet(signers: seq<SignersSet>, length: nat) {
    && 0 < length <= |signers| && signers[length - 1] != map[]
    && forall e :: length <= e < |signers| ==> signers[e] == map[]
  }

  // The round trip: the rebuilt list is the original up to trailing empty sets,
  // so its last epoch is the last one with a signer.
  lemma HistoryRoundTrip(signers: seq<SignersSet>, msg: ReplyHistory)
    requires IsFlat(signers, msg) && msg.index != []
    ensures forall i :: 0 <= i < |msg.index| ==> msg.index[i] <= msg.index[|msg.index| - 1]
    ensures var length := msg.index[|msg.index| - 1] + 1;
            LastSet(signers, length) && Rebuilt(msg, |msg.index|, length) == signers[..length]
  {
    var n := |msg.index|;
    var length := msg.index[n - 1] + 1;
    assert IsEntry(signers, msg, n - 1);
    var r := Rebuilt(msg, n, length);
    forall e | 0 <= e < length
      ensures r[e] == signers[e]
    {
      RebuiltIsWithin(signers, msg, n, length, e);
      forall k | k in signers[e]
        ensures k in r[e]
      {
        assert Listed(msg, e, k);
      }
      assert r[e].Keys == signers[e].Keys;
    }
    forall e, k | 0 <= e < |signers| && k in signers[e]
      ensures e < length
    {
      assert Listed(msg, e, k);
    }
    assert forall e :: length <= e < |signers| ==> signers[e].Keys == {};
  }

  // There is something to send exactly when some epoch has a signer.
  lemma NothingToSend(signers: seq<SignersSet>, msg: ReplyHistory)
    requires IsFlat(signers, msg)
    ensures msg.index == [] <==> forall e :: 0 <= e < |signers| ==> signers[e] == map[]
  {
    forall e, k | 0 <= e < |signers| && k in signers[e]
      ensures msg.index != []
    {
      assert Listed(msg, e, k);
    }
    if msg.index != [] {
      assert IsEntry(signers, msg, 0);
    } else {
      assert forall e :: 0 <= e < |signers| ==> signers[e].Keys == {};
    }
  }

  // The first epoch a server has signed for.
  ghost predicate EntersAt(signers: seq<SignersSet>, id: ServerID, e: nat) {
    e < |signers| && id in signers[e] && forall f :: 0 <= f < e ==> id !in signers[f]
  }

  // The descending loop of getepochOfEntryMap, before names replace identities.
  method EpochOfEntry(s: Service) returns (entry: map<ServerID, nat>)
    ensures forall id :: id in entry <==> exists e :: EntersAt(s.Signers, id, e)
    ensures forall id :: id in entry ==> EntersAt(s.Signers, id, entry[id])
  {
    entry := map[];
    var i := |s.Signers|;
    while i > 0
      invariant i <= |s.Signers|
      invariant forall id :: id in entry ==>
        i <= entry[id] < |s.Signers| && id in s.Signers[entry[id]] && forall f: nat :: i <= f < entry[id] ==>
          id !in s.Signers[f]
      invariant forall id, e: nat :: i <= e < |s.Signers| && id in s.Signers[e] ==> id in entry
    {
      i := i - 1;
      var before := entry;
      var ids := s.Signers[i].Keys;
      while ids != {}
        invariant ids <= s.Signers[i].Keys
        invariant forall id :: id in entry <==> id in before || id in s.Signers[i].Keys - ids
        invariant forall id :: id in entry ==> entry[id] == if id in s.Signers[i].Keys - ids then i else before[id]
        decreases ids
      {
        var id :| id in ids;
        entry := entry[id := i];
        ids := ids - {id};
      }
    }
    forall id
      ensures id in entry <==> exists e :: EntersAt(s.Signers, id, e)
    {
      if id in entry {
        assert EntersAt(s.Signers, id, entry[id]);
      }
    }
  }

  // A server that rebuilds its history from another's finds the same epochs of
  // entry, on which the lottery depends.
  lemma HistoryKeepsEntry(signers: seq<SignersSet>, msg: ReplyHistory, id: ServerID, e: nat)
    requires IsFlat(signers, msg) && msg.index != []
    ensures forall i :: 0 <= i < |msg.index| ==> msg.index[i] <= msg.index[|msg.index| - 1]
    ensures EntersAt(signers, id, e) <==> EntersAt(Rebuilt(msg, |msg.index|, msg.index[|msg.index| - 1] + 1), id, e)
  {
    HistoryRoundTrip(signers, msg);
  }
}
