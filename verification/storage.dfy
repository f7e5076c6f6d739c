/** The file-system store of `internal/storage/storage.go`. Each directory
    (nodes, agents, messages, ...) is the sequence of its files in the order
    `listFiles` returns them; an entry is `None` when its file cannot be read
    or decoded, which the listings silently skip. */
module Storage {
  import opened Wrappers
  import opened Types

  /** Go's run-time panic "slice bounds out of range". */
  datatype Panic = SliceBoundsOutOfRange

  /** One page of a listing and the size of the whole (filtered) listing. */
  datatype Page<T> = Page(items: seq<T>, total: int)

  /** The index of the first element of a 1-based page. */
  function PageStart(page: int, pageSize: int): int {
    (page - 1) * pageSize
  }

  function Min(a: int, b: int): int {
    if a <= b then a else b
  }

  /** `paginate`, and the same inline code at the end of every filtered
      listing: the 1-based `page` of `pageSize` elements, or the panic Go's
      slice expression raises when a negative start or size reaches it. */
  function Paginate<T>(items: seq<T>, page: int, pageSize: int): (r: Result<Page<T>, Panic>)
    ensures r.Err? <==> PageStart(page, pageSize) < |items| && (PageStart(page, pageSize) < 0 || pageSize < 0)
    ensures page >= 1 && pageSize >= 0 ==> r.Ok?
    ensures r.Ok? ==> r.value.total == |items|
    ensures r.Ok? && PageStart(page, pageSize) >= |items| ==> r.value.items == []
    ensures r.Ok? && PageStart(page, pageSize) < |items| ==>
      0 <= PageStart(page, pageSize) && |r.value.items| == Min(pageSize, |items| - PageStart(page, pageSize))
    ensures r.Ok? ==> |r.value.items| <= (if pageSize < 0 then 0 else pageSize)
    ensures r.Ok? ==> forall k :: 0 <= k < |r.value.items| ==>
      0 <= PageStart(page, pageSize) + k < |items| && r.value.items[k] == items[PageStart(page, pageSize) + k]
  {
    var start := PageStart(page, pageSize);
    if start >= |items| then Ok(Page([], |items|))
    else
      var end := if start + pageSize > |items| then |items| else start + pageSize;
      if start < 0 || end < start then Err(SliceBoundsOutOfRange)
      else Ok(Page(items[start..end], |items|))
  }

  /** A page only holds elements of the listing it was cut from. */
  lemma PageFromListing<T>(items: seq<T>, page: int, pageSize: int)
    requires Paginate(items, page, pageSize).Ok?
    ensures forall x :: x in Paginate(items, page, pageSize).value.items ==> x in items
  {
    var p := Paginate(items, page, pageSize).value;
    forall x | x in p.items ensures x in items {
      var k :| 0 <= k < |p.items| && p.items[k] == x;
      assert items[PageStart(page, pageSize) + k] == x;
    }
  }

  /** A page that is not past the end is the slice of the listing between
      its start and its start plus the page size, cut at the end. */
  lemma PageIsWindow<T>(items: seq<T>, page: int, pageSize: int)
    requires Paginate(items, page, pageSize).Ok? && PageStart(page, pageSize) < |items|
    ensures var lo := PageStart(page, pageSize);
      0 <= lo <= Min(lo + pageSize, |items|) <= |items|
      && Paginate(items, page, pageSize).value.items == items[lo..Min(lo + pageSize, |items|)]
  {
  }

  /** Every element of a listing is found on exactly the page its index
      names, at the position its index names: the pages cover the listing. */
  lemma PaginateCovers<T>(items: seq<T>, pageSize: int, i: int)
    requires pageSize > 0 && 0 <= i < |items|
    ensures var r := Paginate(items, i / pageSize + 1, pageSize);
      r.Ok? && i % pageSize < |r.value.items| && r.value.items[i % pageSize] == items[i]
  {
    var page := i / pageSize + 1;
    var start := PageStart(page, pageSize);
    assert start == (i / pageSize) * pageSize;
    assert start + i % pageSize == i;
    assert start <= i < |items|;
  }

  /** The successfully loaded entries of a directory that pass `keep`, in
      directory order. */
  function Loaded<T>(files: seq<Option<T>>, keep: T -> bool): (r: seq<T>)
    ensures |r| <= |files|
    ensures forall k :: 0 <= k < |r| ==> keep(r[k]) && Some(r[k]) in files
    ensures forall i :: 0 <= i < |files| && files[i].Some? && keep(files[i].value) ==> files[i].value in r
  {
    if |files| == 0 then []
    else
      var rest := Loaded(files[1..], keep);
      assert forall k :: 0 <= k < |rest| ==> Some(rest[k]) in files by {
        forall k | 0 <= k < |rest| ensures Some(rest[k]) in files {
          assert Some(rest[k]) in files[1..];
        }
      }
      match files[0]
      case Some(x) => if keep(x) then [x] + rest else rest
      case None => rest
  }

  /** Filtering preserves order: the filtered listing of two directory
      segments is the concatenation of their filtered listings. */
  lemma {:induction false} LoadedAppend<T>(a: seq<Option<T>>, b: seq<Option<T>>, keep: T -> bool)
    ensures Loaded(a + b, keep) == Loaded(a, keep) + Loaded(b, keep)
  {
    if |a| > 0 {
      assert (a + b)[1..] == a[1..] + b;
      LoadedAppend(a[1..], b, keep);
    } else {
      assert a + b == b;
    }
  }

  function All<T>(): T -> bool {
    (x: T) => true
  }

  /** A page of a directory listed without loading: `ListNodes` and
      `ListBlacklist` cut the page from the file names first and then drop
      the files that fail to load, so `total` counts every file. */
  function ListUnfiltered<T>(files: seq<Option<T>>, page: int, pageSize: int): (r: Result<Page<T>, Panic>)
    ensures r.Err? <==> PageStart(page, pageSize) < |files| && (PageStart(page, pageSize) < 0 || pageSize < 0)
    ensures r.Ok? ==> r.value.total == |files|
    ensures r.Ok? ==> |r.value.items| <= (if pageSize < 0 then 0 else pageSize)
    ensures r.Ok? ==> forall k :: 0 <= k < |r.value.items| ==> Some(r.value.items[k]) in files
    ensures r.Ok? && PageStart(page, pageSize) >= |files| ==> r.value.items == []
    ensures r.Ok? && PageStart(page, pageSize) < |files| ==>
      var lo := PageStart(page, pageSize);
      0 <= lo <= Min(lo + pageSize, |files|) <= |files|
      && r.value.items == Loaded(files[lo..Min(lo + pageSize, |files|)], All())
    ensures page >= 1 && pageSize >= 0 ==> r.Ok?
    ensures r.Ok? && page == 1 && pageSize > 0 && |files| > 0 && files[0].Some? ==>
      |r.value.items| > 0 && r.value.items[0] == files[0].value
  {
    var p :- Paginate(files, page, pageSize);
    UnfilteredMembers(files, page, pageSize);
    UnfilteredFirst(files, page, pageSize);
    if PageStart(page, pageSize) < |files| then
      PageIsWindow(files, page, pageSize);
      Ok(Page(Loaded(p.items, All()), p.total))
    else
      Ok(Page(Loaded(p.items, All()), p.total))
  }

  /** The loaded files of a page are at most a page and come from the
      directory. */
  lemma UnfilteredMembers<T>(files: seq<Option<T>>, page: int, pageSize: int)
    requires Paginate(files, page, pageSize).Ok?
    ensures var items := Loaded(Paginate(files, page, pageSize).value.items, All());
      && |items| <= (if pageSize < 0 then 0 else pageSize)
      && forall k :: 0 <= k < |items| ==> Some(items[k]) in files
  {
    PageFromListing(files, page, pageSize);
  }

  /** The first page starts with the first file when that file loads. */
  lemma UnfilteredFirst<T>(files: seq<Option<T>>, page: int, pageSize: int)
    requires Paginate(files, page, pageSize).Ok?
    ensures var items := Loaded(Paginate(files, page, pageSize).value.items, All());
      page == 1 && pageSize > 0 && |files| > 0 && files[0].Some? ==> |items| > 0 && items[0] == files[0].value
  {
    if page == 1 && pageSize > 0 && |files| > 0 && files[0].Some? {
      var p := Paginate(files, page, pageSize).value;
      assert p.items[0] == files[0];
    }
  }

  /** A filtered listing: load every file, keep the matching ones, then page.
      The page is the window of the matching entries that the page number
      names, in directory order. */
  function ListFiltered<T>(files: seq<Option<T>>, keep: T -> bool, page: int, pageSize: int): (r: Result<Page<T>, Panic>)
    ensures var n := |Loaded(files, keep)|;
      r.Err? <==> PageStart(page, pageSize) < n && (PageStart(page, pageSize) < 0 || pageSize < 0)
    ensures r.Ok? ==> r.value.total == |Loaded(files, keep)|
    ensures r.Ok? ==> |r.value.items| <= (if pageSize < 0 then 0 else pageSize)
    ensures r.Ok? ==> forall k :: 0 <= k < |r.value.items| ==> keep(r.value.items[k]) && Some(r.value.items[k]) in files
    ensures r.Ok? ==> var n := |Loaded(files, keep)|; var lo := PageStart(page, pageSize);
      |r.value.items| == (if lo >= n then 0 else Min(pageSize, n - lo))
      && forall k :: 0 <= k < |r.value.items| ==> 0 <= lo + k < n && r.value.items[k] == Loaded(files, keep)[lo + k]
    ensures page >= 1 && pageSize >= 0 ==> r.Ok?
  {
    var matching := Loaded(files, keep);
    var r := Paginate(matching, page, pageSize);
    assert r.Ok? ==> forall k :: 0 <= k < |r.value.items| ==> r.value.items[k] in matching;
    r
  }

  function ListNodes(files: seq<Option<Node>>, page: int, pageSize: int): Result<Page<Node>, Panic> {
    ListUnfiltered(files, page, pageSize)
  }

  function ListBlacklist(files: seq<Option<BlacklistEntry>>, page: int, pageSize: int): Result<Page<BlacklistEntry>, Panic> {
    ListUnfiltered(files, page, pageSize)
  }

  /** `ListAgents`: an empty `nodeId` keeps every agent. */
  function AgentFilter(nodeId: string): Agent -> bool {
    (a: Agent) => nodeId == "" || a.nodeId == nodeId
  }

  function ListAgents(files: seq<Option<Agent>>, nodeId: string, page: int, pageSize: int): (r: Result<Page<Agent>, Panic>)
    ensures r.Ok? ==> forall k :: 0 <= k < |r.value.items| ==> nodeId == "" || r.value.items[k].nodeId == nodeId
    ensures r.Ok? ==> r.value.total == |Loaded(files, AgentFilter(nodeId))|
  {
    ListFiltered(files, AgentFilter(nodeId), page, pageSize)
  }

  /** `ListMessages`: a message matches when the filter is empty or names its
      recipient or its author. */
  function MessageFilter(party: string): Message -> bool {
    (m: Message) => party == "" || m.recipientId == party || m.authorId == party
  }

  function ListMessages(files: seq<Option<Message>>, party: string, page: int, pageSize: int): (r: Result<Page<Message>, Panic>)
    ensures r.Ok? ==> forall k :: 0 <= k < |r.value.items| ==>
      party == "" || r.value.items[k].recipientId == party || r.value.items[k].authorId == party
    ensures r.Ok? ==> r.value.total == |Loaded(files, MessageFilter(party))|
  {
    ListFiltered(files, MessageFilter(party), page, pageSize)
  }

  /** `ListChallenges`: both filters must hold; an empty one holds always. */
  function ChallengeFilter(targetId: string, status: string): Challenge -> bool {
    (c: Challenge) => (targetId == "" || c.targetId == targetId) && (status == "" || c.status == status)
  }

  function ListChallenges(files: seq<Option<Challenge>>, targetId: string, status: string, page: int, pageSize: int): (r: Result<Page<Challenge>, Panic>)
    ensures r.Ok? ==> forall k :: 0 <= k < |r.value.items| ==>
      (targetId == "" || r.value.items[k].targetId == targetId) && (status == "" || r.value.items[k].status == status)
    ensures r.Ok? ==> r.value.total == |Loaded(files, ChallengeFilter(targetId, status))|
  {
    ListFiltered(files, ChallengeFilter(targetId, status), page, pageSize)
  }

  /** `ListTransactions`: the agent is the payer or the payee. */
  function TransactionFilter(agentId: string): CreditTransaction -> bool {
    (t: CreditTransaction) => agentId == "" || t.fromId == agentId || t.toId == agentId
  }

  function ListTransactions(files: seq<Option<CreditTransaction>>, agentId: string, page: int, pageSize: int): (r: Result<Page<CreditTransaction>, Panic>)
    ensures r.Ok? ==> forall k :: 0 <= k < |r.value.items| ==>
      agentId == "" || r.value.items[k].fromId == agentId || r.value.items[k].toId == agentId
    ensures r.Ok? ==> r.value.total == |Loaded(files, TransactionFilter(agentId))|
  {
    ListFiltered(files, TransactionFilter(agentId), page, pageSize)
  }

  /** `ListReputationHistory`: unlike the other listings an empty agent ID is
      not a wildcard. */
  function ReputationFilter(agentId: string): ReputationEntry -> bool {
    (e: ReputationEntry) => e.agentId == agentId
  }

  function ListReputationHistory(files: seq<Option<ReputationEntry>>, agentId: string, page: int, pageSize: int): (r: Result<Page<ReputationEntry>, Panic>)
    ensures r.Ok? ==> forall k :: 0 <= k < |r.value.items| ==> r.value.items[k].agentId == agentId
    ensures r.Ok? ==> r.value.total == |Loaded(files, ReputationFilter(agentId))|
  {
    ListFiltered(files, ReputationFilter(agentId), page, pageSize)
  }

  /** With an empty filter every loaded file is listed. */
  lemma EmptyFiltersKeepAll(agents: seq<Option<Agent>>, messages: seq<Option<Message>>, challenges: seq<Option<Challenge>>)
    ensures Loaded(agents, AgentFilter("")) == Loaded(agents, All())
    ensures Loaded(messages, MessageFilter("")) == Loaded(messages, All())
    ensures Loaded(challenges, ChallengeFilter("", "")) == Loaded(challenges, All())
  {
    LoadedSameFilter(agents, AgentFilter(""), All());
    LoadedSameFilter(messages, MessageFilter(""), All());
    LoadedSameFilter(challenges, ChallengeFilter("", ""), All());
  }

  lemma {:induction false} LoadedSameFilter<T>(files: seq<Option<T>>, f: T -> bool, g: T -> bool)
    requires forall x :: f(x) == g(x)
    ensures Loaded(files, f) == Loaded(files, g)
  {
    if |files| > 0 {
      LoadedSameFilter(files[1..], f, g);
    }
  }

  /** The sum of the changes of some reputation entries. */
  function SumChanges(entries: seq<ReputationEntry>): int {
    if |entries| == 0 then 0 else entries[0].change + SumChanges(entries[1..])
  }

  /** `GetReputation`: the running total over the agent's readable entries. */
  function GetReputation(files: seq<Option<ReputationEntry>>, agentId: string): (total: int)
    ensures (forall i :: 0 <= i < |files| && files[i].Some? ==> files[i].value.agentId != agentId) ==> total == 0
  {
    if |files| == 0 then 0
    else
      var rest := GetReputation(files[1..], agentId);
      match files[0]
      case Some(e) => if e.agentId == agentId then e.change + rest else rest
      case None => rest
  }

  /** An agent's reputation is the sum of the changes in its full history. */
  lemma {:induction false} ReputationIsHistorySum(files: seq<Option<ReputationEntry>>, agentId: string)
    ensures GetReputation(files, agentId) == SumChanges(Loaded(files, ReputationFilter(agentId)))
  {
    if |files| > 0 {
      ReputationIsHistorySum(files[1..], agentId);
    }
  }

  /** One more entry listed last moves the agent's reputation by exactly its
      change: the total does not depend on the entry being listed first. */
  lemma {:induction false} ReputationAppend(files: seq<Option<ReputationEntry>>, e: ReputationEntry, agentId: string)
    ensures GetReputation(files + [Some(e)], agentId)
         == GetReputation(files, agentId) + (if e.agentId == agentId then e.change else 0)
  {
    if |files| == 0 {
      assert files + [Some(e)] == [Some(e)];
    } else {
      assert (files + [Some(e)])[1..] == files[1..] + [Some(e)];
      ReputationAppend(files[1..], e, agentId);
    }
  }

  /** The blacklist rule: an entry blocks a target when type and target
      match, it is "active", and it has no expiry or `now` is not after it. */
  predicate Blocks(e: BlacklistEntry, kind: string, targetId: string, now: int) {
    && e.kind == kind
    && e.targetId == targetId
    && e.status == "active"
    && (e.expiresAt.None? || now <= e.expiresAt.value)
  }

  /** `IsBlacklisted`. */
  function IsBlacklisted(files: seq<Option<BlacklistEntry>>, kind: string, targetId: string, now: int): (r: bool)
    ensures r <==> exists i :: 0 <= i < |files| && files[i].Some? && Blocks(files[i].value, kind, targetId, now)
  {
    if |files| == 0 then false
    else if files[0].Some? && Blocks(files[0].value, kind, targetId, now) then true
    else
      var r := IsBlacklisted(files[1..], kind, targetId, now);
      assert r ==> exists i :: 0 <= i < |files| && files[i].Some? && Blocks(files[i].value, kind, targetId, now) by {
        if r {
          var j :| 0 <= j < |files[1..]| && files[1..][j].Some? && Blocks(files[1..][j].value, kind, targetId, now);
          assert files[j + 1] == files[1..][j];
        }
      }
      assert (exists i :: 0 <= i < |files| && files[i].Some? && Blocks(files[i].value, kind, targetId, now)) ==> r by {
        if exists i :: 0 <= i < |files| && files[i].Some? && Blocks(files[i].value, kind, targetId, now) {
          var i :| 0 <= i < |files| && files[i].Some? && Blocks(files[i].value, kind, targetId, now);
          assert i > 0;
          assert files[1..][i - 1] == files[i];
        }
      }
      r
  }

  /** The file a record with this ID is stored in. */
  function FileName(id: string): string {
    id + ".json"
  }

  /** `SaveNode`: a node without an ID gets the fresh ID and its creation
      time; every save stamps `updatedAt`. */
  function SaveNode(n: Node, now: int, freshId: string): (saved: Node)
    ensures n.id != "" ==> saved.id == n.id && saved.createdAt == n.createdAt
    ensures n.id == "" ==> saved.id == freshId && saved.createdAt == now
    ensures saved.updatedAt == now
    ensures saved.(id := n.id, createdAt := n.createdAt, updatedAt := n.updatedAt) == n
  {
    if n.id == "" then n.(id := freshId, createdAt := now, updatedAt := now)
    else n.(updatedAt := now)
  }

  /** The directory after writing `x` to the file its ID names: any earlier
      file with that ID is overwritten, and the fresh file is the newest, so
      it is listed first. Unreadable files keep their place. */
  function Put<T>(files: seq<Option<T>>, x: T, idOf: T -> string): (r: seq<Option<T>>)
    ensures |r| > 0 && r[0] == Some(x) && |r| <= |files| + 1
    ensures forall k :: 1 <= k < |r| ==> r[k] in files && !(r[k].Some? && idOf(r[k].value) == idOf(x))
    ensures forall i :: 0 <= i < |files| && !(files[i].Some? && idOf(files[i].value) == idOf(x)) ==> files[i] in r
  {
    [Some(x)] + Loaded(Wrap(files), (f: Option<T>) => !(f.Some? && idOf(f.value) == idOf(x)))
  }

  /** Writing a record whose ID no readable file holds only adds a file. */
  lemma {:induction false} PutFresh<T>(files: seq<Option<T>>, x: T, idOf: T -> string)
    requires forall i :: 0 <= i < |files| && files[i].Some? ==> idOf(files[i].value) != idOf(x)
    ensures Put(files, x, idOf) == [Some(x)] + files
  {
    KeepAll(files, (f: Option<T>) => !(f.Some? && idOf(f.value) == idOf(x)));
  }

  lemma {:induction false} KeepAll<T>(files: seq<T>, keep: T -> bool)
    requires forall i :: 0 <= i < |files| ==> keep(files[i])
    ensures Loaded(Wrap(files), keep) == files
  {
    if |files| > 0 {
      assert Wrap(files)[1..] == Wrap(files[1..]);
      KeepAll(files[1..], keep);
    }
  }

  function NodeId(n: Node): string {
    n.id
  }

  /** The node directory after writing `n` to `<id>.json`. */
  function PutNode(files: seq<Option<Node>>, n: Node): (r: seq<Option<Node>>)
    ensures |r| > 0 && r[0] == Some(n)
    ensures forall k :: 1 <= k < |r| ==> r[k] in files && !(r[k].Some? && r[k].value.id == n.id)
    ensures forall i :: 0 <= i < |files| && !(files[i].Some? && files[i].value.id == n.id) ==> files[i] in r
  {
    Put(files, n, NodeId)
  }

  function BlacklistId(e: BlacklistEntry): string {
    e.id
  }

  /** The blacklist directory after writing `e` to `<id>.json`. */
  function PutBlacklistEntry(files: seq<Option<BlacklistEntry>>, e: BlacklistEntry): (r: seq<Option<BlacklistEntry>>)
    ensures |r| > 0 && r[0] == Some(e)
    ensures forall k :: 1 <= k < |r| ==> r[k] in files && !(r[k].Some? && r[k].value.id == e.id)
    ensures forall i :: 0 <= i < |files| && !(files[i].Some? && files[i].value.id == e.id) ==> files[i] in r
  {
    Put(files, e, BlacklistId)
  }

  /** Each directory entry as a loaded value, so that `Loaded` can filter
      entries, readable or not. */
  function Wrap<T>(files: seq<T>): (r: seq<Option<T>>)
    ensures |r| == |files| && forall i :: 0 <= i < |files| ==> r[i] == Some(files[i])
  {
    seq(|files|, i requires 0 <= i < |files| => Some(files[i]))
  }

  /** The save rule shared by agents, messages, challenges, transactions
      and blacklist entries: a record without an ID gets the fresh ID and
      is stamped with `now`, and a record with one is written as it is.
      `stamp` sets the ID and the record's own time field. */
  function AssignId<T>(x: T, idOf: T -> string, stamp: (T, string, int) -> T, now: int, freshId: string): (saved: T)
    ensures idOf(x) != "" ==> saved == x
    ensures idOf(x) == "" ==> saved == stamp(x, freshId, now)
  {
    if idOf(x) == "" then stamp(x, freshId, now) else x
  }

  /** Once a save has set a non-empty ID, saving again writes the record as
      it is. */
  lemma AssignIdIdempotent<T>(x: T, idOf: T -> string, stamp: (T, string, int) -> T,
                              now: int, later: int, id1: string, id2: string)
    requires id1 != "" && idOf(stamp(x, id1, now)) == id1
    ensures var once := AssignId(x, idOf, stamp, now, id1);
      idOf(once) != "" && AssignId(once, idOf, stamp, later, id2) == once
  {
  }

  /** `SaveAgent`: only an agent without an ID gets the fresh ID and `now`. */
  function SaveAgent(a: Agent, now: int, freshId: string): (saved: Agent)
    ensures a.id != "" ==> saved == a
    ensures a.id == "" ==> saved == a.(id := freshId, createdAt := now)
  {
    AssignId(a, (x: Agent) => x.id, (x: Agent, id: string, t: int) => x.(id := id, createdAt := t), now, freshId)
  }

  /** `SaveMessage`: a message without an ID gets the fresh ID and `now` as
      its timestamp. */
  function SaveMessage(m: Message, now: int, freshId: string): (saved: Message)
    ensures m.id != "" ==> saved == m
    ensures m.id == "" ==> saved == m.(id := freshId, timestamp := now)
  {
    AssignId(m, (x: Message) => x.id, (x: Message, id: string, t: int) => x.(id := id, timestamp := t), now, freshId)
  }

  /** `SaveChallenge`: only a challenge without an ID gets the fresh ID and
      `now`. */
  function SaveChallenge(c: Challenge, now: int, freshId: string): (saved: Challenge)
    ensures c.id != "" ==> saved == c
    ensures c.id == "" ==> saved == c.(id := freshId, createdAt := now)
  {
    AssignId(c, (x: Challenge) => x.id, (x: Challenge, id: string, t: int) => x.(id := id, createdAt := t), now, freshId)
  }

  /** `SaveTransaction`: a transaction without an ID gets the fresh ID and
      `now` as its timestamp. */
  function SaveTransaction(t: CreditTransaction, now: int, freshId: string): (saved: CreditTransaction)
    ensures t.id != "" ==> saved == t
    ensures t.id == "" ==> saved == t.(id := freshId, timestamp := now)
  {
    AssignId(t, (x: CreditTransaction) => x.id,
      (x: CreditTransaction, id: string, at: int) => x.(id := id, timestamp := at), now, freshId)
  }

  /** `SaveBlacklistEntry`: only an entry without an ID gets the fresh ID
      and `now`. */
  function SaveBlacklistEntry(e: BlacklistEntry, now: int, freshId: string): (saved: BlacklistEntry)
    ensures e.id != "" ==> saved == e
    ensures e.id == "" ==> saved == e.(id := freshId, createdAt := now)
  {
    AssignId(e, (x: BlacklistEntry) => x.id,
      (x: BlacklistEntry, id: string, t: int) => x.(id := id, createdAt := t), now, freshId)
  }

  /** Saving a record that already has an ID changes nothing, so a saved
      record is saved again as it is: its ID, once set, is kept. */
  lemma SavesAreIdempotent(a: Agent, m: Message, c: Challenge, t: CreditTransaction, e: BlacklistEntry,
                           now: int, later: int, id1: string, id2: string)
    requires id1 != ""
    ensures SaveAgent(SaveAgent(a, now, id1), later, id2) == SaveAgent(a, now, id1)
    ensures SaveMessage(SaveMessage(m, now, id1), later, id2) == SaveMessage(m, now, id1)
    ensures SaveChallenge(SaveChallenge(c, now, id1), later, id2) == SaveChallenge(c, now, id1)
    ensures SaveTransaction(SaveTransaction(t, now, id1), later, id2) == SaveTransaction(t, now, id1)
    ensures SaveBlacklistEntry(SaveBlacklistEntry(e, now, id1), later, id2) == SaveBlacklistEntry(e, now, id1)
  {
  }

  /** Saving a node again keeps its ID and creation time and only moves
      `updatedAt`. */
  lemma SaveNodeKeepsIdentity(n: Node, now: int, later: int, id1: string, id2: string)
    requires id1 != ""
    ensures var once := SaveNode(n, now, id1);
      SaveNode(once, later, id2) == once.(updatedAt := later)
  {
  }

  /** `SaveReputationEntry`: entries have no ID; each save is a new file
      under a fresh name, the newest, so it is listed first. */
  function SaveReputationEntry(files: seq<Option<ReputationEntry>>, e: ReputationEntry): (files': seq<Option<ReputationEntry>>)
    ensures |files'| == |files| + 1 && files'[0] == Some(e) && files'[1..] == files
    ensures forall a :: GetReputation(files', a) == GetReputation(files, a) + (if e.agentId == a then e.change else 0)
  {
    [Some(e)] + files
  }
}
