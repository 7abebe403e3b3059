/** The "my gists" list of use-gist.ts (`useMyGists`, lines 174-218): a keyed map fed by an
    unordered stream of upserts and null tombstones, and a view re-derived from it after every
    event, newest first. */
module MyGists {
  import opened Wrappers
  import opened Assoc
  import opened Sorting
  import opened Canon
  import Publish

  /** A record as the list shows it (use-gist.ts:191-200). */
  datatype Gist = Gist(
    id: string,
    description: string,
    files: Assoc<GistFile>,
    createdAt: int,
    updatedAt: int,
    owner: Option<string>)

  /** The one-file preview of use-gist.ts:196-198: `{}` for an undefined, null or empty filename. */
  function Preview(filename: Option<string>): (files: Assoc<GistFile>)
    ensures |files| <= 1
    ensures files != [] <==> filename.Some? && filename.value != ""
    ensures files != [] ==> files[0] == (filename.value, GistFile(filename.value, "", "", 0))
  {
    if filename.Some? && filename.value != "" then
      [(filename.value, GistFile(filename.value, "", "", 0))]
    else []
  }

  /** The list entry built from one non-null delivery under stream key `key`. */
  function EntryOf(key: string, data: IndexNode, owner: Option<string>): (g: Gist)
    ensures data.id.None? ==> g.id == key
    ensures data.id.Some? ==> g.id == data.id.value
    ensures g.createdAt == data.createdAt
    ensures data.updatedAt.None? ==> g.updatedAt == g.createdAt
    ensures data.updatedAt.Some? ==> g.updatedAt == data.updatedAt.value
    ensures g.description == data.description && g.owner == owner
    ensures g.files == Preview(data.filename)
  {
    Gist(data.id.GetOr(key), data.description, Preview(data.filename), data.createdAt,
         data.updatedAt.GetOr(data.createdAt), owner)
  }

  /** The comparator `b.createdAt - a.createdAt < 0`: the newer record goes first. */
  predicate Newer(a: Gist, b: Gist)
  {
    a.createdAt > b.createdAt
  }

  /** `Array.from(gistsMap.values()).sort(...)`. */
  function View(m: Assoc<Gist>): seq<Gist>
  {
    Sort(Values(m), Newer)
  }

  /** The view holds exactly the map's values, newest first. */
  lemma ViewIsNewestFirst(m: Assoc<Gist>)
    ensures multiset(View(m)) == multiset(Values(m))
    ensures forall i, j :: 0 <= i < j < |View(m)| ==> View(m)[i].createdAt >= View(m)[j].createdAt
  {
    assert StrictOrder(Newer);
    SortSorted(Values(m), Newer);
  }

  /** One stream event: `(data, id)` from `user.get('gists').map().on`. `None` is a tombstone. */
  datatype Event = Event(key: string, data: Option<IndexNode>)

  /** `gistsMap.set(id, gist)` or `gistsMap.delete(id)`. */
  function Apply(m: Assoc<Gist>, e: Event, owner: Option<string>): Assoc<Gist>
  {
    match e.data
    case Some(d) => Put(m, e.key, EntryOf(e.key, d, owner))
    case None => Delete(m, e.key)
  }

  /** The map after a stream of events. */
  function Replay(m: Assoc<Gist>, events: seq<Event>, owner: Option<string>): Assoc<Gist>
    decreases |events|
  {
    if events == [] then m else Replay(Apply(m, events[0], owner), events[1..], owner)
  }

  /** An event stores or removes its own key and leaves every other key as it was. */
  lemma ApplyGet(m: Assoc<Gist>, e: Event, owner: Option<string>, k: string)
    ensures Get(Apply(m, e, owner), k) ==
      if k != e.key then Get(m, k)
      else if e.data.Some? then Some(EntryOf(e.key, e.data.value, owner))
      else None
  {
    if e.data.Some? {
      PutGet(m, e.key, EntryOf(e.key, e.data.value, owner), k);
    } else {
      DeleteGet(m, e.key, k);
    }
  }

  /** Events keep keys unique. */
  lemma ApplyUnique(m: Assoc<Gist>, e: Event, owner: Option<string>)
    requires UniqueKeys(m)
    ensures UniqueKeys(Apply(m, e, owner))
  {
    if e.data.Some? {
      PutUnique(m, e.key, EntryOf(e.key, e.data.value, owner));
    } else {
      DeleteUnique(m, e.key);
    }
  }

  /** A re-delivered event changes nothing. */
  lemma ApplyIdempotent(m: Assoc<Gist>, e: Event, owner: Option<string>)
    ensures Apply(Apply(m, e, owner), e, owner) == Apply(m, e, owner)
  {
    if e.data.Some? {
      PutPut(m, e.key, EntryOf(e.key, e.data.value, owner), EntryOf(e.key, e.data.value, owner));
    }
  }

  /** A tombstone for a key never seen is a no-op. */
  lemma TombstoneUnknownKey(m: Assoc<Gist>, k: string, owner: Option<string>)
    requires k !in Keys(m)
    ensures Apply(m, Event(k, None), owner) == m
  {
  }

  /** An upsert followed by a tombstone for the same key leaves the key out, as if the upsert
      had never arrived. */
  lemma UpsertThenTombstone(m: Assoc<Gist>, k: string, d: IndexNode, owner: Option<string>)
    ensures Replay(m, [Event(k, Some(d)), Event(k, None)], owner) == Delete(m, k)
    ensures k !in Keys(Replay(m, [Event(k, Some(d)), Event(k, None)], owner))
  {
    var m1 := Apply(m, Event(k, Some(d)), owner);
    DeletePut(m, k, EntryOf(k, d, owner));
    assert [Event(k, Some(d)), Event(k, None)][1..] == [Event(k, None)];
    assert Replay(m1, [Event(k, None)], owner) == Apply(m1, Event(k, None), owner);
  }

  /** Last write wins per key: an earlier upsert of the key leaves no trace once a later one
      arrives, as if the earlier delivery had been dropped. */
  lemma LastWriteWins(m: Assoc<Gist>, k: string, d1: IndexNode, d2: IndexNode, owner: Option<string>)
    ensures Replay(m, [Event(k, Some(d1)), Event(k, Some(d2))], owner) == Replay(m, [Event(k, Some(d2))], owner)
  {
    var m1 := Apply(m, Event(k, Some(d1)), owner);
    PutPut(m, k, EntryOf(k, d1, owner), EntryOf(k, d2, owner));
    assert [Event(k, Some(d1)), Event(k, Some(d2))][1..] == [Event(k, Some(d2))];
    assert Replay(m1, [Event(k, Some(d2))], owner) == Apply(m1, Event(k, Some(d2)), owner);
  }

  /** Two upserts, at 100 and then at 200: the later one is listed first. */
  lemma NewestFirstExample(owner: Option<string>)
    ensures var d1 := IndexNode(None, "", 100, None, None);
      var d2 := IndexNode(None, "", 200, None, None);
      View(Replay([], [Event("k1", Some(d1)), Event("k2", Some(d2))], owner)) ==
        [EntryOf("k2", d2, owner), EntryOf("k1", d1, owner)]
  {
    var d1 := IndexNode(None, "", 100, None, None);
    var d2 := IndexNode(None, "", 200, None, None);
    var g1, g2 := EntryOf("k1", d1, owner), EntryOf("k2", d2, owner);
    ReplayPair([], Event("k1", Some(d1)), Event("k2", Some(d2)), owner);
    ViewOfTwo("k1", "k2", g1, g2);
  }

  /** Helper for the example: two records under different keys, the older one stored first. */
  lemma ViewOfTwo(k1: string, k2: string, g1: Gist, g2: Gist)
    requires k1 != k2 && g1.createdAt < g2.createdAt
    ensures View(Put(Put([], k1, g1), k2, g2)) == [g2, g1]
  {
    var m1 := Put([], k1, g1);
    assert m1 == [(k1, g1)];
    assert k2 !in Keys(m1);
    var m2 := Put(m1, k2, g2);
    assert m2 == [(k1, g1), (k2, g2)];
    assert Values(m2) == [g1, g2];
    SortPairSwaps(g1, g2);
  }

  /** Helper for the example: two events replay one after the other. */
  lemma ReplayPair(m: Assoc<Gist>, e1: Event, e2: Event, owner: Option<string>)
    ensures Replay(m, [e1, e2], owner) == Apply(Apply(m, e1, owner), e2, owner)
  {
    assert [e1, e2][1..] == [e2];
    assert Replay(Apply(m, e1, owner), [e2], owner) == Apply(Apply(m, e1, owner), e2, owner);
  }

  /** Helper for the example: the view of an older and a newer record swaps them. */
  lemma SortPairSwaps(g1: Gist, g2: Gist)
    requires g1.createdAt < g2.createdAt
    ensures Sort([g1, g2], Newer) == [g2, g1]
  {
    assert [g1, g2][..1] == [g1];
    assert [g1][..0] == [];
  }

  /** The list entry `createGist` writes under the user's `gists`, delivered back under its
      address, shows the record's address, description and time, with `updatedAt` equal to
      `createdAt` and the first file's name as preview. */
  lemma PublishedEntryShown(files: seq<GistFile>, description: string, gunReady: bool,
                            session: Option<string>, now: int, p: Primitives, m: Assoc<Gist>)
    requires Publish.Publish(files, description, gunReady, session, now, p).Success?
    requires session.Some?
    ensures var pub := Publish.Publish(files, description, gunReady, session, now, p).value;
      && pub.listEntry.Some?
      && Get(Apply(m, Event(pub.id, pub.listEntry), session), pub.id) ==
         Some(Gist(pub.id, if description != "" then description else "",
                   Preview(Some(if files != [] then files[0].filename else "")), now, now, session))
  {
    var pub := Publish.Publish(files, description, gunReady, session, now, p).value;
    ApplyGet(m, Event(pub.id, pub.listEntry), session, pub.id);
  }

  /** The hook's state for the logged-in user's list. */
  class MyGistsFeed {
    const owner: Option<string>
    /** Whether the stream was attached (use-gist.ts:180-183 skip it without a store or user). */
    const subscribed: bool
    var gistsMap: Assoc<Gist>
    var gists: seq<Gist>
    var loading: bool

    /** The view is always re-derived from the map, never kept apart from it. */
    ghost predicate Valid()
      reads this
    {
      UniqueKeys(gistsMap) && gists == View(gistsMap)
    }

    constructor(gunReady: bool, session: Option<string>)
      ensures Valid() && owner == session && subscribed == (gunReady && session.Some?)
      ensures gistsMap == [] && gists == [] && loading == subscribed
    {
      owner := session;
      subscribed := gunReady && session.Some?;
      gistsMap := [];
      gists := [];
      loading := gunReady && session.Some?;
    }

    /** The stream callback of use-gist.ts:189-210. */
    method OnEvent(key: string, data: Option<IndexNode>)
      requires Valid() && subscribed
      modifies this
      ensures Valid() && !loading
      ensures gistsMap == Apply(old(gistsMap), Event(key, data), owner)
      ensures multiset(gists) == multiset(Values(gistsMap))
      ensures forall i, j :: 0 <= i < j < |gists| ==> gists[i].createdAt >= gists[j].createdAt
    {
      var m := gistsMap;
      ApplyUnique(m, Event(key, data), owner);
      if data.Some? {
        var gist := EntryOf(key, data.value, owner);
        m := Put(m, key, gist);
      } else {
        m := Delete(m, key);
      }
      var view := Sort(Values(m), Newer);
      ViewIsNewestFirst(m);
      gistsMap, gists, loading := m, view, false;
    }
  }
}
