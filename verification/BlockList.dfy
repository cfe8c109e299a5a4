/** The doubly linked list of blocks, on snapshots of `preBlock` and `nxtBlock`. */
module BlockList {
  import opened Blocks

  datatype Link = Link(pre: BlockDesc?, nxt: BlockDesc?)

  type Links = map<BlockDesc, Link>

  /** The fields of the blocks are as `m` says. */
  ghost predicate Agree(m: Links)
    reads m.Keys
  {
    forall b {:trigger b.preBlock} {:trigger b.nxtBlock} :: b in m ==> m[b] == Link(b.preBlock, b.nxtBlock)
  }

  ghost function Prior(s: seq<BlockDesc>, i: int): BlockDesc?
    requires 0 <= i <= |s|
  {
    if i == 0 then null else s[i - 1]
  }

  ghost function Later(s: seq<BlockDesc>, i: int): BlockDesc?
    requires -1 <= i < |s|
  {
    if i + 1 == |s| then null else s[i + 1]
  }

  ghost function Members(s: seq<BlockDesc>): set<BlockDesc> {
    if s == [] then {} else Members(s[..|s| - 1]) + {s[|s| - 1]}
  }

  lemma {:induction false} MembersIn(s: seq<BlockDesc>, b: BlockDesc)
    ensures b in Members(s) <==> b in s
  {
    if s != [] {
      MembersIn(s[..|s| - 1], b);
      assert s == s[..|s| - 1] + [s[|s| - 1]];
    }
  }

  ghost predicate NoRepeats(s: seq<BlockDesc>) {
    forall i, j :: 0 <= i < j < |s| ==> s[i] != s[j]
  }

  /** The list from `first` to `last` is `s`. */
  ghost predicate Linked(m: Links, s: seq<BlockDesc>, first: BlockDesc?, last: BlockDesc?) {
    && NoRepeats(s) && (forall i {:trigger s[i]} :: 0 <= i < |s| ==> s[i] in m)
    && first == Later(s, -1) && last == Prior(s, |s|)
    && forall i {:trigger m[s[i]]} :: 0 <= i < |s| ==> m[s[i]] == Link(Prior(s, i), Later(s, i))
  }

  /** `b` stands between `p` and `n`. */
  ghost function Between(m: Links, p: BlockDesc?, b: BlockDesc, n: BlockDesc?): (r: Links)
    ensures r.Keys == m.Keys + {b}
  {
    map x | x in m.Keys + {b} ::
      if x == b then Link(p, n) else Link(if x == n then b else m[x].pre, if x == p then b else m[x].nxt)
  }

  /** `s'` is `s` with `b` put in at place `k`. */
  ghost predicate Put(s: seq<BlockDesc>, s': seq<BlockDesc>, k: nat, b: BlockDesc) {
    && k <= |s| && |s'| == |s| + 1 && s'[k] == b
    && (forall i {:trigger s'[i]} :: 0 <= i < k ==> s'[i] == s[i])
    && forall i {:trigger s'[i]} :: k < i <= |s| ==> s'[i] == s[i - 1]
  }

  /** `p` and `n` are neighbours, and `b` is neither of them. */
  ghost predicate Around(m: Links, p: BlockDesc?, b: BlockDesc, n: BlockDesc?) {
    && (p != null ==> p in m && p != b && p != n && m[p].nxt == n)
    && (n != null ==> n in m && n != b && m[n].pre == p)
  }

  lemma {:induction false} PutMembers(s: seq<BlockDesc>, s': seq<BlockDesc>, k: nat, b: BlockDesc)
    requires Put(s, s', k, b)
    ensures Members(s') == Members(s) + {b}
  {
    var r := s'[..|s|];
    if k == |s| {
      assert r == s;
    } else {
      assert Put(s[..|s| - 1], r, k, b);
      PutMembers(s[..|s| - 1], r, k, b);
    }
  }

  lemma UnputFacts(s: seq<BlockDesc>, s': seq<BlockDesc>, k: nat, b: BlockDesc)
    requires Put(s, s', k, b) && NoRepeats(s')
    ensures Members(s) == Members(s') - {b}
  {
    PutMembers(s, s', k, b);
    MembersIn(s, b);
    forall i | 0 <= i < |s| ensures s[i] != b {
      assert s[i] == s'[if i < k then i else i + 1];
    }
  }

  lemma PutLink(m: Links, s: seq<BlockDesc>, s': seq<BlockDesc>, first: BlockDesc?, last: BlockDesc?, k: nat,
      b: BlockDesc, i: nat)
    requires Linked(m, s, first, last) && b !in m && Put(s, s', k, b) && i < |s'|
    requires Around(m, Prior(s, k), b, Later(s, k - 1))
    ensures var m' := Between(m, Prior(s, k), b, Later(s, k - 1));
      s'[i] in m' && m'[s'[i]] == Link(Prior(s', i), Later(s', i))
  {
    if i != k {
      var j := if i < k then i else i - 1;
      assert s'[i] == s[j] && m[s[j]] == Link(Prior(s, j), Later(s, j));
      assert s[j] == Prior(s, k) <==> i == k - 1;
      assert s[j] == Later(s, k - 1) <==> i == k + 1;
    }
  }

  lemma PutDistinct(s: seq<BlockDesc>, s': seq<BlockDesc>, k: nat, b: BlockDesc)
    requires NoRepeats(s) && b !in s && Put(s, s', k, b)
    ensures NoRepeats(s')
  {
    forall i, j | 0 <= i < j < |s'| ensures s'[i] != s'[j] {
      assert i != k ==> s'[i] == s[if i < k then i else i - 1];
      assert j != k ==> s'[j] == s[if j < k then j else j - 1];
    }
  }

  lemma SlotAround(m: Links, s: seq<BlockDesc>, first: BlockDesc?, last: BlockDesc?, k: nat, b: BlockDesc)
    requires Linked(m, s, first, last) && b !in m && k <= |s|
    ensures Around(m, Prior(s, k), b, Later(s, k - 1))
  {
    assert k > 0 ==> s[k - 1] in m && m[s[k - 1]] == Link(Prior(s, k - 1), Later(s, k - 1));
    assert k < |s| ==> s[k] in m && m[s[k]] == Link(Prior(s, k), Later(s, k));
  }

  lemma PutEnds(s: seq<BlockDesc>, s': seq<BlockDesc>, k: nat, b: BlockDesc)
    requires Put(s, s', k, b)
    ensures Later(s', -1) == (if Prior(s, k) == null then b else Later(s, -1))
    ensures Prior(s', |s'|) == (if Later(s, k - 1) == null then b else Prior(s, |s|))
  {
    assert k > 0 ==> s'[0] == s[0];
    assert k < |s| ==> s'[|s|] == s[|s| - 1];
  }

  lemma PutLinked(m: Links, s: seq<BlockDesc>, s': seq<BlockDesc>, first: BlockDesc?, last: BlockDesc?, k: nat,
      b: BlockDesc)
    requires Linked(m, s, first, last) && b !in m && Put(s, s', k, b)
    ensures var p, n := Prior(s, k), Later(s, k - 1);
      && Around(m, p, b, n)
      && Linked(Between(m, p, b, n), s', if p == null then b else first, if n == null then b else last)
  {
    SlotAround(m, s, first, last, k, b);
    PutDistinct(s, s', k, b);
    PutEnds(s, s', k, b);
    var m' := Between(m, Prior(s, k), b, Later(s, k - 1));
    forall i | 0 <= i < |s'| ensures s'[i] in m' && m'[s'[i]] == Link(Prior(s', i), Later(s', i)) {
      PutLink(m, s, s', first, last, k, b, i);
    }
  }

  /** The neighbours of `b` are joined. */
  ghost function Joined(m: Links, p: BlockDesc?, b: BlockDesc, n: BlockDesc?): (r: Links)
    ensures r.Keys == m.Keys - {b}
  {
    map x | x in m.Keys - {b} :: Link(if x == n then p else m[x].pre, if x == p then n else m[x].nxt)
  }

  /** The neighbours of `b` are in memory and differ from it and from each other. */
  ghost predicate Flanked(m: Links, b: BlockDesc)
    requires b in m
  {
    && (m[b].pre != null ==> m[b].pre in m && m[b].pre != b && m[b].pre != m[b].nxt)
    && (m[b].nxt != null ==> m[b].nxt in m && m[b].nxt != b)
  }

  lemma TakeLink(m: Links, s: seq<BlockDesc>, s': seq<BlockDesc>, first: BlockDesc?, last: BlockDesc?, k: nat, i: nat)
    requires Linked(m, s, first, last) && k < |s| && Put(s', s, k, s[k]) && i < |s'|
    ensures var m' := Joined(m, Prior(s, k), s[k], Later(s, k));
      s'[i] in m' && m'[s'[i]] == Link(Prior(s', i), Later(s', i))
  {
    var j := if i < k then i else i + 1;
    assert s'[i] == s[j] && m[s[j]] == Link(Prior(s, j), Later(s, j));
    assert s[j] == Prior(s, k) <==> i == k - 1;
    assert s[j] == Later(s, k) <==> i == k;
  }

  lemma TakeLinked(m: Links, s: seq<BlockDesc>, s': seq<BlockDesc>, first: BlockDesc?, last: BlockDesc?, k: nat)
    requires Linked(m, s, first, last) && k < |s| && Put(s', s, k, s[k])
    ensures var p, n := Prior(s, k), Later(s, k);
      && s[k] in m && m[s[k]] == Link(p, n) && Flanked(m, s[k])
      && Linked(Joined(m, p, s[k], n), s', if p == null then n else first, if n == null then p else last)
  {
    assert m[s[k]] == Link(Prior(s, k), Later(s, k));
    forall i, j | 0 <= i < j < |s'| ensures s'[i] != s'[j] {
      assert s'[i] == s[if i < k then i else i + 1] && s'[j] == s[if j < k then j else j + 1];
    }
    forall i | 0 <= i < |s'|
      ensures var m' := Joined(m, Prior(s, k), s[k], Later(s, k));
        s'[i] in m' && m'[s'[i]] == Link(Prior(s', i), Later(s', i))
    {
      TakeLink(m, s, s', first, last, k, i);
    }
  }
}
