/**
 * The peers a completed piece's verdict is reported to: every distinct peer a
 * block was requested from, in order of first occurrence, and how many of them
 * still have a live connection.
 */
module Contributors {
  import opened Optional
  import opened Entities

  /** The set of peers blocks were requested from. */
  function ContributorSet(blocks: seq<Block>): set<PeerId> {
    set i | 0 <= i < |blocks| && blocks[i].requestedOff.Some? :: blocks[i].requestedOff.value
  }

  /** Some block of the piece was requested from `p`. */
  predicate Contributed(blocks: seq<Block>, p: PeerId) {
    p in ContributorSet(blocks)
  }

  predicate NoDuplicates(s: seq<PeerId>) {
    forall i, j :: 0 <= i < j < |s| ==> s[i] != s[j]
  }

  /** The index of the first block requested from `p`, or |blocks| if there is none. */
  function FirstIndex(blocks: seq<Block>, p: PeerId): (k: nat)
    ensures k <= |blocks|
    ensures k < |blocks| ==> blocks[k].requestedOff == Some(p)
    ensures forall j :: 0 <= j < k ==> blocks[j].requestedOff != Some(p)
  {
    if |blocks| == 0 then 0
    else if blocks[0].requestedOff == Some(p) then 0
    else 1 + FirstIndex(blocks[1..], p)
  }

  /** Entries are listed in strictly increasing order of their first block. */
  predicate InFirstOccurrenceOrder(blocks: seq<Block>, s: seq<PeerId>) {
    forall i, j :: 0 <= i < j < |s| ==> FirstIndex(blocks, s[i]) < FirstIndex(blocks, s[j])
  }

  /**
   * The list PerformWrite builds: scanning the blocks in order, each peer a
   * block was requested from is appended unless the list already holds it.
   */
  function ContributorsOf(blocks: seq<Block>): (r: seq<PeerId>)
    ensures |r| <= |blocks|
    ensures NoDuplicates(r)
    ensures forall p: PeerId :: p in r <==> Contributed(blocks, p)
    decreases |blocks|
  {
    if |blocks| == 0 then []
    else
      var prefix := ContributorsOf(blocks[..|blocks| - 1]);
      var b := blocks[|blocks| - 1];
      if b.requestedOff.Some? && b.requestedOff.value !in prefix then prefix + [b.requestedOff.value]
      else prefix
  }

  /** The first occurrence is the only index holding `p` with no earlier one. */
  lemma FirstIndexUnique(blocks: seq<Block>, p: PeerId, k: nat)
    requires k < |blocks| && blocks[k].requestedOff == Some(p)
    requires forall j :: 0 <= j < k ==> blocks[j].requestedOff != Some(p)
    ensures FirstIndex(blocks, p) == k
  {
  }

  /** Extending the blocks does not move the first occurrence of a peer already present. */
  lemma FirstIndexExtend(blocks: seq<Block>, p: PeerId)
    requires |blocks| > 0
    requires FirstIndex(blocks[..|blocks| - 1], p) < |blocks| - 1
    ensures FirstIndex(blocks, p) == FirstIndex(blocks[..|blocks| - 1], p)
  {
    var front := blocks[..|blocks| - 1];
    var k := FirstIndex(front, p);
    assert blocks[k] == front[k];
    assert forall j :: 0 <= j < k ==> blocks[j] == front[j];
    FirstIndexUnique(blocks, p, k);
  }

  /** The contributor list is ordered by each peer's first block. */
  lemma {:induction false} ContributorsInFirstOccurrenceOrder(blocks: seq<Block>)
    ensures InFirstOccurrenceOrder(blocks, ContributorsOf(blocks))
    decreases |blocks|
  {
    if |blocks| > 0 {
      var n := |blocks| - 1;
      var front := blocks[..n];
      var prefix := ContributorsOf(front);
      ContributorsInFirstOccurrenceOrder(front);
      // Every listed peer of the prefix keeps its first index, which lies before n.
      forall i | 0 <= i < |prefix|
        ensures FirstIndex(blocks, prefix[i]) == FirstIndex(front, prefix[i]) < n
      {
        assert Contributed(front, prefix[i]);
        var j :| 0 <= j < n && front[j].requestedOff == Some(prefix[i]);
        assert FirstIndex(front, prefix[i]) <= j;
        FirstIndexExtend(blocks, prefix[i]);
      }
      var b := blocks[n];
      if b.requestedOff.Some? && b.requestedOff.value !in prefix {
        var x := b.requestedOff.value;
        assert !Contributed(front, x);
        assert FirstIndex(front, x) == n;
        assert FirstIndex(blocks, x) == n;
      }
    }
  }

  predicate IncreasingBy(s: seq<PeerId>, key: PeerId -> int) {
    forall i, j :: 0 <= i < j < |s| ==> key(s[i]) < key(s[j])
  }

  /** Two lists holding the same peers, both strictly increasing by one key, are equal. */
  lemma {:induction false} IncreasingByUnique(a: seq<PeerId>, b: seq<PeerId>, key: PeerId -> int)
    requires forall p: PeerId :: p in a <==> p in b
    requires IncreasingBy(a, key) && IncreasingBy(b, key)
    ensures a == b
    decreases |a|
  {
    if |b| > 0 {
      assert b[0] in a;
    }
    if |a| > 0 {
      assert a[0] in b;
      var k :| 0 <= k < |b| && b[k] == a[0];
      assert b[0] in a;
      var m :| 0 <= m < |a| && a[m] == b[0];
      assert key(a[0]) <= key(a[m]);
      assert key(b[0]) <= key(b[k]);
      assert k == 0;
      forall p: PeerId ensures p in a[1..] <==> p in b[1..] {
        if p in a[1..] {
          var i :| 0 <= i < |a[1..]| && a[1..][i] == p;
          assert key(a[0]) < key(a[i + 1]);
          assert p in b;
          var j :| 0 <= j < |b| && b[j] == p;
          assert b[1..][j - 1] == p;
        }
        if p in b[1..] {
          var i :| 0 <= i < |b[1..]| && b[1..][i] == p;
          assert key(b[0]) < key(b[i + 1]);
          assert p in a;
          var j :| 0 <= j < |a| && a[j] == p;
          assert a[1..][j - 1] == p;
        }
      }
      IncreasingByUnique(a[1..], b[1..], key);
      assert a == [a[0]] + a[1..] && b == [b[0]] + b[1..];
    }
  }

  /**
   * Independent characterisation: a list holding exactly the contributing
   * peers, in order of their first block, is the contributor list.
   */
  lemma ContributorsCharacterised(blocks: seq<Block>, s: seq<PeerId>)
    requires forall p: PeerId :: p in s <==> Contributed(blocks, p)
    requires InFirstOccurrenceOrder(blocks, s)
    ensures s == ContributorsOf(blocks)
  {
    var r := ContributorsOf(blocks);
    ContributorsInFirstOccurrenceOrder(blocks);
    var key := (p: PeerId) => FirstIndex(blocks, p);
    assert IncreasingBy(s, key) && IncreasingBy(r, key);
    IncreasingByUnique(s, r, key);
  }

  /** How many of `peers` still have a connection: one verdict notification is sent per such entry. */
  function LiveCount(peers: seq<PeerId>, connected: set<PeerId>): (n: nat)
    ensures n <= |peers|
    decreases |peers|
  {
    if |peers| == 0 then 0
    else LiveCount(peers[..|peers| - 1], connected) + (if peers[|peers| - 1] in connected then 1 else 0)
  }

  lemma ElementsOfSnoc(s: seq<PeerId>, x: PeerId)
    ensures (set p: PeerId | p in s + [x]) == (set p: PeerId | p in s) + {x}
  {
  }

  /** On a list without repeats, the live count is the number of distinct connected peers in it. */
  lemma {:induction false} LiveCountOfDistinct(peers: seq<PeerId>, connected: set<PeerId>)
    requires NoDuplicates(peers)
    ensures LiveCount(peers, connected) == |(set p: PeerId | p in peers) * connected|
    decreases |peers|
  {
    if |peers| > 0 {
      var front := peers[..|peers| - 1];
      var x := peers[|peers| - 1];
      assert peers == front + [x];
      NoDuplicatesSnoc(front, x);
      LiveCountOfDistinct(front, connected);
      var before := set p: PeerId | p in front;
      ElementsOfSnoc(front, x);
      AddOneConnected(before, x, connected);
    }
  }

  lemma NoDuplicatesSnoc(front: seq<PeerId>, x: PeerId)
    requires NoDuplicates(front + [x])
    ensures NoDuplicates(front) && x !in front
  {
    var s := front + [x];
    assert forall i :: 0 <= i < |front| ==> front[i] == s[i] && s[i] != s[|front|];
  }

  /** Adding a peer not yet counted raises the number of connected ones by one exactly when it is connected. */
  lemma AddOneConnected(before: set<PeerId>, x: PeerId, connected: set<PeerId>)
    requires x !in before
    ensures |(before + {x}) * connected| == |before * connected| + (if x in connected then 1 else 0)
  {
    if x in connected {
      assert (before + {x}) * connected == before * connected + {x};
    } else {
      assert (before + {x}) * connected == before * connected;
    }
  }

  /** One notification per distinct connected contributor, whatever the number of blocks each sent. */
  lemma NotificationsPerLiveContributor(blocks: seq<Block>, connected: set<PeerId>)
    ensures LiveCount(ContributorsOf(blocks), connected) == |ContributorSet(blocks) * connected|
  {
    var r := ContributorsOf(blocks);
    LiveCountOfDistinct(r, connected);
    forall p: PeerId ensures p in r <==> p in ContributorSet(blocks) {
      if p in r {
        var i :| 0 <= i < |blocks| && blocks[i].requestedOff == Some(p);
        assert blocks[i].requestedOff.value == p;
      }
    }
    assert (set p: PeerId | p in r) == ContributorSet(blocks);
  }
}
