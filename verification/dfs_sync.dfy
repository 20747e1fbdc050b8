/** The two passes of the part-2 client's synchronisation with the server's
    listing: `compare_server_to_local` over the server's files, then
    `compare_local_to_server` over the local ones. A listing maps a file
    name to its modification time; the order in which a pass meets the
    names is an input, since the maps are unordered. */
module DfsSync {
  import opened Base
  import opened Grpc
  import opened DfsFiles
  import DfsClient

  datatype Action = Fetch | Store

  type Listing = map<string, int>

  /** `order` lists every name of `names` exactly once. */
  predicate Enumerates(order: seq<string>, names: set<string>)
  {
    (forall i, j :: 0 <= i < j < |order| ==> order[i] != order[j])
    && (forall i :: 0 <= i < |order| ==> order[i] in names)
    && (forall n :: n in names ==> n in order)
  }

  /** Pass 1's choice for a server file. */
  function ServerChoice(name: string, server: Listing, local: Listing): Option<Action>
    requires name in server
  {
    if name !in local then Some(Fetch)
    else if local[name] < server[name] then Some(Fetch)
    else if local[name] > server[name] then Some(Store)
    else None
  }

  /** `compare_server_to_local`: one entry per server file that is missing
      locally or differs in time. */
  function ServerPass(order: seq<string>, server: Listing, local: Listing): (plan: seq<(string, Action)>)
    requires forall i :: 0 <= i < |order| ==> order[i] in server
    ensures forall k :: 0 <= k < |plan| ==> plan[k].0 in order
  {
    if |order| == 0 then []
    else
      var rest := ServerPass(order[1..], server, local);
      assert forall k :: 0 <= k < |rest| ==> rest[k].0 in order by {
        forall k | 0 <= k < |rest| ensures rest[k].0 in order { assert rest[k].0 in order[1..]; }
      }
      match ServerChoice(order[0], server, local)
      case Some(a) => [(order[0], a)] + rest
      case None => rest
  }

  /** `compare_local_to_server`: a store for every local file the server
      does not list. */
  function LocalPass(order: seq<string>, server: Listing): (plan: seq<(string, Action)>)
    ensures forall k :: 0 <= k < |plan| ==> plan[k].0 in order && plan[k].0 !in server
  {
    if |order| == 0 then []
    else
      var rest := LocalPass(order[1..], server);
      assert forall k :: 0 <= k < |rest| ==> rest[k].0 in order by {
        forall k | 0 <= k < |rest| ensures rest[k].0 in order { assert rest[k].0 in order[1..]; }
      }
      if order[0] !in server then [(order[0], Store)] + rest else rest
  }

  /** The action the sync rule calls for on a file of either listing,
      stated over the union: fetch what the server has newer or only the
      server has, store what the client has newer or only the client has. */
  function Wanted(name: string, server: Listing, local: Listing): Option<Action>
  {
    if name in server && name in local then
      if local[name] < server[name] then Some(Fetch)
      else if local[name] > server[name] then Some(Store)
      else None
    else if name in server then Some(Fetch)
    else if name in local then Some(Store)
    else None
  }

  /** The two compare calls of one sync round, server pass first: every
      planned name comes from one of the listings, and every entry for a
      server file precedes every entry for a file the server lacks. */
  function Sync(serverOrder: seq<string>, localOrder: seq<string>, server: Listing, local: Listing): (plan: seq<(string, Action)>)
    requires Enumerates(serverOrder, server.Keys)
    ensures forall k :: 0 <= k < |plan| ==> plan[k].0 in server || plan[k].0 in localOrder
    ensures forall i, j :: 0 <= i < j < |plan| && plan[j].0 in server ==> plan[i].0 in server
  {
    var p1 := ServerPass(serverOrder, server, local);
    var p2 := LocalPass(localOrder, server);
    assert forall k :: 0 <= k < |p1| ==> p1[k].0 in server;
    p1 + p2
  }

  lemma {:induction false} ServerPassChooses(order: seq<string>, server: Listing, local: Listing, name: string, a: Action)
    requires forall i :: 0 <= i < |order| ==> order[i] in server
    ensures (name, a) in ServerPass(order, server, local) <==> name in order && ServerChoice(name, server, local) == Some(a)
    decreases |order|
  {
    if |order| > 0 {
      ServerPassChooses(order[1..], server, local, name, a);
      assert name in order <==> name == order[0] || name in order[1..] by {
        assert order == [order[0]] + order[1..];
      }
    }
  }

  lemma {:induction false} LocalPassStores(order: seq<string>, server: Listing, name: string, a: Action)
    ensures (name, a) in LocalPass(order, server) <==> name in order && name !in server && a == Store
    decreases |order|
  {
    if |order| > 0 {
      LocalPassStores(order[1..], server, name, a);
      assert name in order <==> name == order[0] || name in order[1..] by {
        assert order == [order[0]] + order[1..];
      }
    }
  }

  /** No two entries of a plan name the same file. */
  predicate NamesDistinct(plan: seq<(string, Action)>)
  {
    forall i, j :: 0 <= i < j < |plan| ==> plan[i].0 != plan[j].0
  }

  lemma DistinctTail(order: seq<string>)
    requires |order| > 0
    requires forall i, j :: 0 <= i < j < |order| ==> order[i] != order[j]
    ensures forall i, j :: 0 <= i < j < |order[1..]| ==> order[1..][i] != order[1..][j]
    ensures order[0] !in order[1..]
  {
    forall m | 0 <= m < |order[1..]| ensures order[1..][m] != order[0] {
      assert order[1..][m] == order[m + 1];
    }
  }

  lemma DistinctCons(x: (string, Action), rest: seq<(string, Action)>)
    requires NamesDistinct(rest)
    requires forall k :: 0 <= k < |rest| ==> rest[k].0 != x.0
    ensures NamesDistinct([x] + rest)
  {
    var p := [x] + rest;
    forall i, j | 0 <= i < j < |p| ensures p[i].0 != p[j].0 {
      assert p[j] == rest[j - 1];
      if i > 0 { assert p[i] == rest[i - 1]; }
    }
  }

  /** A pass over names met once each names each file at most once. */
  lemma {:induction false} ServerPassDistinct(order: seq<string>, server: Listing, local: Listing)
    requires forall i :: 0 <= i < |order| ==> order[i] in server
    requires forall i, j :: 0 <= i < j < |order| ==> order[i] != order[j]
    ensures NamesDistinct(ServerPass(order, server, local))
    decreases |order|
  {
    if |order| > 0 {
      DistinctTail(order);
      ServerPassDistinct(order[1..], server, local);
      var rest := ServerPass(order[1..], server, local);
      forall k | 0 <= k < |rest| ensures rest[k].0 != order[0] {
        assert rest[k].0 in order[1..];
      }
      match ServerChoice(order[0], server, local)
      case Some(a) => DistinctCons((order[0], a), rest);
      case None =>
    }
  }

  lemma {:induction false} LocalPassDistinct(order: seq<string>, server: Listing)
    requires forall i, j :: 0 <= i < j < |order| ==> order[i] != order[j]
    ensures NamesDistinct(LocalPass(order, server))
    decreases |order|
  {
    if |order| > 0 {
      DistinctTail(order);
      LocalPassDistinct(order[1..], server);
      var rest := LocalPass(order[1..], server);
      forall k | 0 <= k < |rest| ensures rest[k].0 != order[0] {
        assert rest[k].0 in order[1..];
      }
      if order[0] !in server { DistinctCons((order[0], Store), rest); }
    }
  }

  /** The two passes together carry out exactly the sync rule: a file of
      either listing gets an action exactly when the rule wants one, that
      action, and no file gets two. */
  lemma SyncIsWanted(serverOrder: seq<string>, localOrder: seq<string>, server: Listing, local: Listing)
    requires Enumerates(serverOrder, server.Keys) && Enumerates(localOrder, local.Keys)
    ensures var plan := Sync(serverOrder, localOrder, server, local);
            (forall name, a :: (name, a) in plan <==> Wanted(name, server, local) == Some(a))
            && NamesDistinct(plan)
  {
    var p1 := ServerPass(serverOrder, server, local);
    var p2 := LocalPass(localOrder, server);
    forall name, a ensures (name, a) in p1 + p2 <==> Wanted(name, server, local) == Some(a) {
      ServerPassChooses(serverOrder, server, local, name, a);
      LocalPassStores(localOrder, server, name, a);
    }
    ServerPassDistinct(serverOrder, server, local);
    LocalPassDistinct(localOrder, server);
    var plan := p1 + p2;
    forall i, j | 0 <= i < j < |plan| ensures plan[i].0 != plan[j].0 {
      if i < |p1| && j >= |p1| {
        assert plan[i] == p1[i] && plan[j] == p2[j - |p1|];
        assert p1[i].0 in server;
      } else if i >= |p1| {
        assert plan[i] == p2[i - |p1|] && plan[j] == p2[j - |p1|];
      }
    }
  }

  /** No chosen call trips its own ALREADY_EXISTS guard, given the status
      call reports the listed time: a fetch is chosen only when the cached
      copy is missing or older, a store only when the server has no copy
      or an older one. */
  lemma ChosenCallsProceed(serverOrder: seq<string>, localOrder: seq<string>, server: Listing, local: Listing,
                           name: string, clientId: string, content: seq<Byte>, lock: DfsClient.LockReply,
                           sio: DfsClient.StoreIo, fio: DfsClient.FetchIo)
    requires Enumerates(serverOrder, server.Keys) && Enumerates(localOrder, local.Keys)
    ensures var plan := Sync(serverOrder, localOrder, server, local);
            var cached := if name in local then Some(FileEntry(local[name], content)) else None;
            var stat := if name in server then DfsClient.StatReply(Ok, server[name]) else DfsClient.StatReply(NotFound, 0);
            ((name, Fetch) in plan ==> DfsClient.FetchP2(cached, stat, fio).status != AlreadyExists)
            && ((name, Store) in plan ==> DfsClient.StoreP2(name, clientId, cached, stat, lock, sio).status != AlreadyExists)
  {
    SyncIsWanted(serverOrder, localOrder, server, local);
  }
}
