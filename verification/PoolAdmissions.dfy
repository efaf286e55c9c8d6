/** The admission object of a backend pool and the slot counter, as updated in
    place (internal/webproxy/backend_pool.go). The critical sections are the ones
    that the state machine of module Admission takes as single steps. */
module PoolAdmissions {
  import opened Admission
  import opened Counters
  import opened Tallies

  /** The slot is taken with the counter below the limit and refused with the counter
      at it, whatever other goroutines add between a load and its swap: `others` is
      what they add, one element per attempt, of which the first `used` came to pass. */
  method TakeSlot(active: Counter, limit: int, others: seq<int>) returns (ok: bool, used: nat)
    modifies active
    ensures used <= |others| && active.value == old(active.value) + Sum(others[..used]) + if ok then 1 else 0
    ensures ok ==> active.value - 1 < if limit <= 0 then 4096 else limit
    ensures !ok ==> active.value >= if limit <= 0 then 4096 else limit
  {
    var bound := if limit <= 0 then DEFAULT_LIMIT else limit;
    used, ok := 0, false;
    while !ok
      invariant used <= |others| && active.value == old(active.value) + Sum(others[..used]) + if ok then 1 else 0
      invariant ok ==> active.value - 1 < bound
      decreases |others| - used, if ok then 0 else 1
    {
      var seen := active.value;
      if seen >= bound {
        return;
      }
      var elsewhere := used < |others|;
      if elsewhere {
        assert others[..used + 1][..used] == others[..used];
        active.value := active.value + others[used];
        used := used + 1;
      }
      ok := active.CompareAndSwap(seen, seen + 1);
    }
  }

  class NodeSlot {
    const active: Counter
    var references: int

    constructor ()
      ensures references == 0 && fresh(active) && active.value == 0
    {
      active := new Counter();
      references := 0;
    }
  }

  lemma DropRefsAt(refs: map<string, int>, urls: seq<string>, u: string)
    ensures u in DropRefs(refs, urls) <==> u in refs && refs[u] > multiset(urls)[u]
    ensures u in DropRefs(refs, urls) ==> DropRefs(refs, urls)[u] == refs[u] - multiset(urls)[u]
  {
  }

  lemma OneMoreUrl(urls: seq<string>, url: string, u: string)
    ensures multiset(urls + [url])[u] == multiset(urls)[u] + multiset([url])[u]
  {
    assert multiset(urls + [url]) == multiset(urls) + multiset([url]);
  }

  lemma DropRefsStep(refs: map<string, int>, urls: seq<string>, url: string)
    requires forall u :: u in refs ==> refs[u] >= 1
    ensures DropRefs(refs, urls + [url]) == DropRefs(DropRefs(refs, urls), [url])
    ensures DropRefs(refs, []) == refs
  {
    hide DropRefs;
    var between := DropRefs(refs, urls);
    var now, later := DropRefs(refs, urls + [url]), DropRefs(between, [url]);
    forall u ensures (u in now <==> u in later) && (u in now ==> now[u] == later[u]) {
      OneMoreUrl(urls, url, u);
      DropRefsAt(refs, urls + [url], u);
      DropRefsAt(refs, urls, u);
      DropRefsAt(between, [url], u);
    }
    assert now == later;
    forall u {
      DropRefsAt(refs, [], u);
    }
    assert DropRefs(refs, []) == refs;
  }

  lemma DropOne(refs: map<string, int>, url: string)
    requires forall u :: u in refs ==> refs[u] >= 1
    ensures DropRefs(refs, [url])
            == if url !in refs then refs else if refs[url] == 1 then refs - {url} else refs[url := refs[url] - 1]
  {
  }

  /** The pools' admissions by pool ID. */
  class PoolTable {
    var entries: map<string, PoolAdmission>

    constructor ()
      ensures entries == map[]
    {
      entries := map[];
    }

    method LoadOrStore(id: string, admission: PoolAdmission) returns (listed: PoolAdmission)
      modifies this
      ensures listed == if id in old(entries) then old(entries)[id] else admission
      ensures entries == old(entries)[id := listed]
    {
      if id !in entries {
        entries := entries[id := admission];
      }
      listed := entries[id];
    }

    /** The entry goes only if it is still this admission. */
    method CompareAndDelete(id: string, admission: PoolAdmission)
      modifies this
      ensures entries == Without(old(entries), id, admission)
    {
      if id in entries && entries[id] == admission {
        entries := entries - {id};
      }
    }
  }

  ghost function Without(entries: map<string, PoolAdmission>, id: string, admission: PoolAdmission)
    : map<string, PoolAdmission>
  {
    if id in entries && entries[id] == admission then entries - {id} else entries
  }

  class PoolAdmission {
    const table: PoolTable
    const id: string
    var nodes: map<string, NodeSlot>
    var members: int
    var retired: bool

    constructor (table: PoolTable, id: string)
      ensures Valid() && nodes == map[] && members == 0 && !retired && this.table == table && this.id == id
    {
      this.table, this.id := table, id;
      nodes, members, retired := map[], 0, false;
    }

    ghost predicate Valid()
      reads this, nodes.Values
    {
      && (forall u :: u in nodes ==> nodes[u].references >= 1)
      && (forall u, v :: u in nodes && v in nodes && u != v ==> nodes[u] != nodes[v])
    }

    ghost function Refs(): map<string, int>
      reads this, nodes.Values
    {
      map u | u in nodes :: nodes[u].references
    }

    method Join() returns (ok: bool)
      requires Valid()
      modifies `members
      ensures Valid() && ok == !retired && members == old(members) + if ok then 1 else 0
    {
      ok := !retired;
      if ok {
        members := members + 1;
      }
    }

    /** A node's counter, with one more reference to it. */
    method Node(url: string) returns (slot: NodeSlot)
      requires Valid()
      modifies `nodes, nodes.Values
      ensures Valid() && Refs() == AddRef(old(Refs()), url)
      ensures nodes == old(nodes)[url := slot]
      ensures if url in old(nodes) then slot == old(nodes[url]) else fresh(slot) && slot.active.value == 0
    {
      if url in nodes {
        slot := nodes[url];
      } else {
        slot := new NodeSlot();
        nodes := nodes[url := slot];
      }
      slot.references := slot.references + 1;
    }

    /** The last reference to a node goes. */
    method Unlist(url: string)
      requires Valid() && url in nodes && nodes[url].references == 1
      modifies `nodes, nodes[url]
      ensures Valid() && nodes == old(nodes) - {url} && Refs() == old(Refs()) - {url}
    {
      nodes[url].references := nodes[url].references - 1;
      nodes := nodes - {url};
    }

    method Dereference(url: string)
      requires Valid()
      modifies `nodes, nodes.Values
      ensures Valid() && Refs() == DropRefs(old(Refs()), [url])
      ensures Within(nodes, old(nodes))
    {
      hide DropRefs;
      DropOne(Refs(), url);
      if url in nodes {
        var n := nodes[url];
        assert forall u :: u in nodes && u != url ==> nodes[u] != n;
        if n.references == 1 {
          Unlist(url);
        } else {
          n.references := n.references - 1;
          assert Refs() == old(Refs())[url := n.references];
        }
      }
    }

    method DereferenceAll(urls: seq<string>)
      requires Valid()
      modifies `nodes, nodes.Values
      ensures Valid() && Refs() == DropRefs(old(Refs()), urls)
      ensures Within(nodes, old(nodes))
    {
      hide DropRefs;
      ghost var before := Refs();
      DropRefsStep(before, [], "");
      for i := 0 to |urls|
        invariant Valid() && Within(nodes, old(nodes)) && Refs() == DropRefs(before, urls[..i])
      {
        assert urls[..i + 1] == urls[..i] + [urls[i]];
        DropRefsStep(before, urls[..i], urls[i]);
        Dereference(urls[i]);
      }
      assert urls[..|urls|] == urls;
    }

    /** Gives back the references of a handler and its membership. With the last member
        gone the admission is retired and, if it is still listed, no longer listed. */
    method Release(urls: seq<string>)
      requires Valid()
      modifies this, nodes.Values, table
      ensures Valid() && Refs() == DropRefs(old(Refs()), urls)
      ensures Within(nodes, old(nodes))
      ensures members == old(members) - 1 && retired == (old(retired) || members == 0)
      ensures table.entries == if members == 0 then Without(old(table.entries), id, this) else old(table.entries)
    {
      hide DropRefs, Within;
      DereferenceAll(urls);
      members := members - 1;
      if members == 0 {
        retired := true;
        table.CompareAndDelete(id, this);
      }
    }
  }

  /** One attempt to join the listed admission of a pool, which is a new one when there
      is none. */
  method TryJoin(table: PoolTable, id: string) returns (p: PoolAdmission, joined: bool)
    requires id in table.entries ==> table.entries[id].Valid()
    modifies table, set i | i in table.entries :: table.entries[i]`members
    ensures p.Valid() && joined == !p.retired && table.entries == old(table.entries)[id := p]
    ensures if id in old(table.entries) then p == old(table.entries[id]) else fresh(p) && !p.retired && p.nodes == map[]
    ensures p.members
            == (if id in old(table.entries) then old(table.entries[id].members) else 0) + if joined then 1 else 0
    ensures forall q :: q in old(table.entries.Values) && q != p ==> q.members == old(q.members)
  {
    var admission := new PoolAdmission(table, id);
    p := table.LoadOrStore(id, admission);
    joined := p.Join();
  }

  /** The admission of a pool with one more member: the one listed, or a new one. One
      that is listed and retired is about to be removed by whoever retired it, which
      happens here before the next attempt. */
  method PoolAdmissionFor(table: PoolTable, id: string) returns (p: PoolAdmission)
    requires id in table.entries ==> table.entries[id].Valid()
    modifies table, set i | i in table.entries :: table.entries[i]`members
    ensures p.Valid() && !p.retired && table.entries == old(table.entries)[id := p]
    ensures if id in old(table.entries) && !old(table.entries[id].retired) then p == old(table.entries[id])
            else fresh(p) && p.nodes == map[]
    ensures p.members
            == 1 + if id in old(table.entries) && p == old(table.entries[id]) then old(table.entries[id].members) else 0
  {
    var joined;
    p, joined := TryJoin(table, id);
    while !joined
      invariant p.Valid() && joined == !p.retired && table.entries == old(table.entries)[id := p]
      invariant if id in old(table.entries) && !(joined && old(table.entries[id].retired))
                then p == old(table.entries[id])
                else fresh(p) && p.nodes == map[] && joined
      invariant joined ==>
                  p.members
                  == 1 + if id in old(table.entries) && p == old(table.entries[id]) then old(table.entries[id].members)
                         else 0
      decreases !joined
    {
      table.CompareAndDelete(id, p);
      p, joined := TryJoin(table, id);
    }
  }

  /** The entries of a are entries of b. */
  ghost predicate Within(a: map<string, NodeSlot>, b: map<string, NodeSlot>) {
    forall u :: u in a ==> u in b && a[u] == b[u]
  }
}
