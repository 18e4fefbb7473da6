/** A named playlist: a map from video id to item, edited in place by idempotent add,
    batch add, remove and rename operations that emit change signals and ask for
    user notifications. */
module Playlists {
  import opened Videos
  import opened Text
  import opened StringOrder

  /** The signals a playlist emits to the library and the interface. */
  datatype Signal =
    | NameChanged(name: string, oldName: string)
    | PlaylistChanged
    | ItemAdded(item: Item)
    | ItemsAdded(items: seq<Item>)
    | ItemRemoved(id: string)
    | ItemsRemoved(ids: seq<string>)

  const DefaultName: string := "Unnamed Playlist"

  /** An empty timestamp argument is replaced by the current time in milliseconds. */
  function Stamp(timestamp: string, nowMs: nat): (r: string)
    ensures r != ""
    ensures timestamp != "" ==> r == timestamp
    ensures timestamp == "" ==> IsDigits(r) && ParseNat(r) == nowMs
  {
    if timestamp == "" then ParseNatToString(nowMs); NatToString(nowMs) else timestamp
  }

  /** "title - subtitle", or the title alone when the subtitle is empty. */
  function Label(it: Item): string
  {
    if it.subTitle != "" then it.title + " - " + it.subTitle else it.title
  }

  function AddedMessage(it: Item, playlistName: string): string
  {
    "Added " + Label(it) + " to playlist " + playlistName
  }

  function RemovedMessage(it: Item, playlistName: string): string
  {
    "Removed " + Label(it) + " from playlist " + playlistName
  }

  /** The notification after a batch add: the item itself for one new item, a count for
      several, nothing when every id was already present. */
  function BatchAddedNotices(created: seq<Item>, playlistName: string): seq<string>
  {
    if |created| == 1 then [AddedMessage(created[0], playlistName)]
    else if |created| > 1 then ["Added " + NatToString(|created|) + " items to playlist " + playlistName]
    else []
  }

  /** The notification after a batch removal: per item only for a one-id list, a count
      of the requested ids for a longer list. */
  function BatchRemovedNotices(before: map<string, Item>, ids: seq<string>, playlistName: string): seq<string>
  {
    if |ids| == 1 then (if ids[0] in before then [RemovedMessage(before[ids[0]], playlistName)] else [])
    else if |ids| > 1 then ["Removed " + NatToString(|ids|) + " items from playlist " + playlistName]
    else []
  }

  /** The parallel argument lists of addItems as items sharing one timestamp. */
  function Batch(ids: seq<string>, titles: seq<string>, subTitles: seq<string>, thumbnails: seq<string>,
                 durations: seq<string>, timestamp: string): (r: seq<Item>)
    requires |titles| >= |ids| && |subTitles| >= |ids| && |thumbnails| >= |ids| && |durations| >= |ids|
    ensures |r| == |ids|
    ensures forall i :: 0 <= i < |ids| ==>
      r[i] == Item(ids[i], titles[i], subTitles[i], thumbnails[i], durations[i], timestamp)
  {
    seq(|ids|, i requires 0 <= i < |ids| =>
      Item(ids[i], titles[i], subTitles[i], thumbnails[i], durations[i], timestamp))
  }

  /** Every item keyed by its own id. */
  ghost predicate KeyedById(m: map<string, Item>)
  {
    forall k :: k in m ==> m[k].id == k
  }

  /** The map after inserting the items in order, skipping any whose id is already a key
      of the map built so far. */
  function Insert(m: map<string, Item>, items: seq<Item>): map<string, Item>
    decreases |items|
  {
    if |items| == 0 then m
    else
      var prev := Insert(m, items[..|items| - 1]);
      var it := items[|items| - 1];
      if it.id in prev then prev else prev[it.id := it]
  }

  /** The items that Insert actually adds, in order. */
  function Created(m: map<string, Item>, items: seq<Item>): seq<Item>
    decreases |items|
  {
    if |items| == 0 then []
    else
      var prev := Insert(m, items[..|items| - 1]);
      var it := items[|items| - 1];
      Created(m, items[..|items| - 1]) + (if it.id in prev then [] else [it])
  }

  /** One more item: Insert adds it unless its id is already there, and Created grows
      by it exactly then. */
  lemma InsertStep(m: map<string, Item>, items: seq<Item>, i: nat)
    requires i < |items|
    ensures var prev := Insert(m, items[..i]);
      Insert(m, items[..i + 1]) == (if items[i].id in prev then prev else prev[items[i].id := items[i]]) &&
      Created(m, items[..i + 1]) == Created(m, items[..i]) + (if items[i].id in prev then [] else [items[i]])
  {
    assert items[..i + 1][..i] == items[..i];
  }

  lemma IdsSnoc(items: seq<Item>)
    requires |items| > 0
    ensures Ids(items) == Ids(items[..|items| - 1]) + [items[|items| - 1].id]
  {
  }

  /** After the batch, the keys are the old keys plus every listed id. */
  lemma {:induction false} InsertKeys(m: map<string, Item>, items: seq<Item>)
    ensures forall x :: x in Insert(m, items) <==> x in m || x in Ids(items)
    decreases |items|
  {
    if |items| > 0 {
      InsertKeys(m, items[..|items| - 1]);
      IdsSnoc(items);
    }
  }

  /** Entries present before the batch are never replaced. */
  lemma {:induction false} InsertKeeps(m: map<string, Item>, items: seq<Item>, k: string)
    requires k in m
    ensures k in Insert(m, items) && Insert(m, items)[k] == m[k]
    decreases |items|
  {
    if |items| > 0 {
      InsertKeeps(m, items[..|items| - 1], k);
    }
  }

  /** A listed id that was not a key gets the entry of its first occurrence in the list. */
  lemma {:induction false} InsertFirstWins(m: map<string, Item>, items: seq<Item>, i: int)
    requires 0 <= i < |items|
    requires items[i].id !in m
    requires forall j :: 0 <= j < i ==> items[j].id != items[i].id
    ensures items[i].id in Insert(m, items) && Insert(m, items)[items[i].id] == items[i]
    decreases |items|
  {
    var prefix := items[..|items| - 1];
    if i == |items| - 1 {
      InsertKeys(m, prefix);
      assert items[i].id !in Ids(prefix);
    } else {
      InsertFirstWins(m, prefix, i);
    }
  }

  /** An id is created iff it is listed and was not a key before. */
  lemma {:induction false} CreatedIds(m: map<string, Item>, items: seq<Item>)
    ensures forall x :: x in Ids(Created(m, items)) <==> x !in m && x in Ids(items)
    decreases |items|
  {
    if |items| > 0 {
      var prefix := items[..|items| - 1];
      var it := items[|items| - 1];
      CreatedIds(m, prefix);
      InsertKeys(m, prefix);
      IdsSnoc(items);
      assert Ids(Created(m, items)) == Ids(Created(m, prefix)) + (if it.id in Insert(m, prefix) then [] else [it.id]);
    }
  }

  /** Every created item comes from the list and is what the map holds under its id. */
  lemma {:induction false} CreatedStored(m: map<string, Item>, items: seq<Item>)
    ensures forall c :: c in Created(m, items) ==> c in items && c.id in Insert(m, items) && Insert(m, items)[c.id] == c
    decreases |items|
  {
    if |items| > 0 {
      var prefix := items[..|items| - 1];
      CreatedStored(m, prefix);
      forall c | c in Created(m, prefix)
        ensures c in items
      {
        assert c in prefix;
      }
    }
  }

  /** No id is created twice. */
  lemma {:induction false} CreatedDistinct(m: map<string, Item>, items: seq<Item>)
    ensures forall i, j :: 0 <= i < j < |Created(m, items)| ==> Created(m, items)[i].id != Created(m, items)[j].id
    decreases |items|
  {
    if |items| > 0 {
      var prefix := items[..|items| - 1];
      var it := items[|items| - 1];
      var prev := Insert(m, prefix);
      CreatedDistinct(m, prefix);
      CreatedStored(m, prefix);
      var cs := Created(m, items);
      var ps := Created(m, prefix);
      assert cs == ps + (if it.id in prev then [] else [it]);
      forall i, j | 0 <= i < j < |cs|
        ensures cs[i].id != cs[j].id
      {
        if j == |ps| {
          assert cs[i] == ps[i] && ps[i] in ps;
        } else {
          assert cs[i] == ps[i] && cs[j] == ps[j];
        }
      }
    }
  }

  /** Insertion keeps every item keyed by its own id. */
  lemma {:induction false} InsertKeyedById(m: map<string, Item>, items: seq<Item>)
    requires KeyedById(m)
    ensures KeyedById(Insert(m, items))
    decreases |items|
  {
    if |items| > 0 {
      InsertKeyedById(m, items[..|items| - 1]);
    }
  }

  /** Playlist: a name and the items keyed by id. */
  class Playlist {
    var name: string
    var videoItems: map<string, Item>

    ghost predicate Valid()
      reads this
    {
      KeyedById(videoItems)
    }

    /** A new playlist is named "Unnamed Playlist" and holds no items. */
    constructor ()
      ensures Valid()
      ensures name == DefaultName && videoItems == map[]
    {
      name := DefaultName;
      videoItems := map[];
    }

    /** Renaming to the current name does nothing; any other name is stored and
        announced with the old one. */
    method SetName(newName: string) returns (signals: seq<Signal>)
      modifies this
      ensures name == newName && videoItems == old(videoItems)
      ensures signals == if newName == old(name) then [] else [NameChanged(newName, old(name))]
    {
      if name == newName {
        return [];
      }
      var oldName := name;
      name := newName;
      signals := [NameChanged(name, oldName)];
    }

    function ContainsItem(id: string): (b: bool)
      reads this
      ensures b <==> id in videoItems
    {
      id in videoItems
    }

    /** Adding an id already present changes nothing; a new id is stored with the given
        fields and a timestamp that is never empty, once. */
    method AddItem(id: string, title: string, subTitle: string, thumbnail: string,
                   duration: string, timestamp: string, nowMs: nat)
      returns (signals: seq<Signal>, notices: seq<string>)
      requires Valid()
      modifies this
      ensures Valid() && name == old(name)
      ensures id in old(videoItems) ==> videoItems == old(videoItems) && signals == [] && notices == []
      ensures id !in old(videoItems) ==>
        var it := Item(id, title, subTitle, thumbnail, duration, Stamp(timestamp, nowMs));
        videoItems == old(videoItems)[id := it] &&
        signals == [ItemAdded(it), PlaylistChanged] && notices == [AddedMessage(it, name)]
    {
      if id in videoItems {
        return [], [];
      }
      var it := MakeItem(id, title, subTitle, thumbnail, duration, Stamp(timestamp, nowMs));
      videoItems := videoItems[id := it];
      notices := [AddedMessage(it, name)];
      signals := [ItemAdded(it), PlaylistChanged];
    }

    /** An empty list does nothing. Otherwise the listed items are inserted in order
        with one shared timestamp, skipping ids already present; the signals go out even
        when nothing was created. */
    method AddItems(ids: seq<string>, titles: seq<string>, subTitles: seq<string>, thumbnails: seq<string>,
                    durations: seq<string>, timestamp: string, nowMs: nat)
      returns (signals: seq<Signal>, notices: seq<string>)
      requires Valid()
      requires |titles| >= |ids| && |subTitles| >= |ids| && |thumbnails| >= |ids| && |durations| >= |ids|
      modifies this
      ensures Valid() && name == old(name)
      ensures |ids| == 0 ==> videoItems == old(videoItems) && signals == [] && notices == []
      ensures |ids| > 0 ==>
        var batch := Batch(ids, titles, subTitles, thumbnails, durations, Stamp(timestamp, nowMs));
        var created := Created(old(videoItems), batch);
        videoItems == Insert(old(videoItems), batch) &&
        signals == [ItemsAdded(created), PlaylistChanged] &&
        notices == BatchAddedNotices(created, name)
    {
      if |ids| == 0 {
        return [], [];
      }
      var ts := Stamp(timestamp, nowMs);
      ghost var batch := Batch(ids, titles, subTitles, thumbnails, durations, ts);
      ghost var before := videoItems;
      var created: seq<Item> := [];
      var i := 0;
      while i < |ids|
        invariant 0 <= i <= |ids|
        invariant videoItems == Insert(before, batch[..i])
        invariant created == Created(before, batch[..i])
        invariant name == old(name)
      {
        InsertStep(before, batch, i);
        assert batch[i] == Item(ids[i], titles[i], subTitles[i], thumbnails[i], durations[i], ts);
        if ids[i] !in videoItems {
          var it := MakeItem(ids[i], titles[i], subTitles[i], thumbnails[i], durations[i], ts);
          videoItems := videoItems[ids[i] := it];
          created := created + [it];
        }
        i := i + 1;
      }
      assert batch[..|ids|] == batch;
      InsertKeyedById(before, batch);
      notices := BatchAddedNotices(created, name);
      signals := [ItemsAdded(created), PlaylistChanged];
    }

    /** Removing an absent id reports false and changes nothing; otherwise exactly that
        id is removed. */
    method RemoveItem(id: string) returns (removed: bool, signals: seq<Signal>, notices: seq<string>)
      requires Valid()
      modifies this
      ensures Valid() && name == old(name)
      ensures removed <==> id in old(videoItems)
      ensures videoItems == old(videoItems) - {id}
      ensures removed ==> signals == [ItemRemoved(id), PlaylistChanged] &&
                          notices == [RemovedMessage(old(videoItems)[id], name)]
      ensures !removed ==> signals == [] && notices == []
    {
      if id !in videoItems {
        return false, [], [];
      }
      var it := videoItems[id];
      videoItems := videoItems - {id};
      notices := [RemovedMessage(it, name)];
      signals := [ItemRemoved(id), PlaylistChanged];
      removed := true;
    }

    /** Every listed id that is present is removed and all others are kept; the removal
        signal carries the whole list, absent ids included. */
    method RemoveItems(ids: seq<string>) returns (signals: seq<Signal>, notices: seq<string>)
      requires Valid()
      modifies this
      ensures Valid() && name == old(name)
      ensures videoItems == old(videoItems) - (set id | id in ids)
      ensures signals == [ItemsRemoved(ids), PlaylistChanged]
      ensures notices == BatchRemovedNotices(old(videoItems), ids, name)
    {
      var before := videoItems;
      notices := [];
      var i := 0;
      while i < |ids|
        invariant 0 <= i <= |ids|
        invariant videoItems == before - (set j | 0 <= j < i :: ids[j])
        invariant notices == if |ids| == 1 && i == 1 then BatchRemovedNotices(before, ids, name) else []
        invariant name == old(name)
      {
        if ids[i] in videoItems {
          var it := videoItems[ids[i]];
          videoItems := videoItems - {ids[i]};
          if |ids| == 1 {
            notices := [RemovedMessage(it, name)];
          }
        }
        i := i + 1;
        assert (set j | 0 <= j < i :: ids[j]) == (set j | 0 <= j < i - 1 :: ids[j]) + {ids[i - 1]};
      }
      assert (set j | 0 <= j < |ids| :: ids[j]) == (set id | id in ids);
      if |ids| > 1 {
        notices := BatchRemovedNotices(before, ids, name);
      }
      signals := [ItemsRemoved(ids), PlaylistChanged];
    }

    /** The items in ascending id order, each once. */
    method Items() returns (r: seq<Item>)
      requires Valid()
      ensures |r| == |videoItems|
      ensures StrictlySorted(Ids(r))
      ensures forall i :: 0 <= i < |r| ==> r[i].id in videoItems && videoItems[r[i].id] == r[i]
      ensures forall k :: k in videoItems ==> k in Ids(r)
    {
      var keys := SortedKeys(videoItems.Keys);
      r := [];
      var i := 0;
      while i < |keys|
        invariant 0 <= i <= |keys|
        invariant |r| == i
        invariant forall j :: 0 <= j < i ==> r[j] == videoItems[keys[j]]
      {
        r := r + [videoItems[keys[i]]];
        i := i + 1;
      }
      assert Ids(r) == keys;
    }
  }
}
