/** The library singleton (PlaylistsManager): the favorites, the list of playlists and
    the JSON document that mirrors both. Every top-level key of the document is
    "Favorites" or a playlist name, and each maps video ids to their stored fields.
    Every edit of the document is handed on whole for upload; here the operations
    return those documents (`uploads`, each one call of UserManager::updateDocument) and
    the notification texts (`notices`, each one call of triggerNotification) in order. */
module Library {
  import opened Videos
  import opened Text
  import opened StringOrder
  import opened JsonDoc
  import opened Playlists

  import opened Wrappers

  const FavoritesKey: string := "Favorites"

  function FavoriteAddedMessage(it: Item): string
  {
    "Added item to favorites: " + Label(it)
  }

  function FavoriteRemovedMessage(it: Item): string
  {
    "Removed item from favorites: " + Label(it)
  }

  /** The notification after removing several favorites at once. */
  function FavoritesRemovedNotices(before: map<string, Item>, ids: seq<string>): seq<string>
  {
    if |ids| == 1 then (if ids[0] in before then ["Removed " + Label(before[ids[0]]) + " from favorites"] else [])
    else if |ids| > 1 then ["Removed " + NatToString(|ids|) + " items from favorites"]
    else []
  }

  /** The names of the playlists, in list order. */
  function NamesOf(ps: seq<Playlist>): (r: seq<string>)
    reads ps
    ensures |r| == |ps|
    ensures forall i :: 0 <= i < |ps| ==> r[i] == ps[i].name
    decreases |ps|
  {
    if |ps| == 0 then [] else NamesOf(ps[..|ps| - 1]) + [ps[|ps| - 1].name]
  }

  /** The position of the first playlist with that name, or -1. */
  function IndexNamed(ps: seq<Playlist>, name: string): (i: int)
    reads ps
    ensures -1 <= i < |ps|
    ensures i >= 0 ==> ps[i].name == name && forall j :: 0 <= j < i ==> ps[j].name != name
    ensures i < 0 <==> name !in NamesOf(ps)
    decreases |ps|
  {
    if |ps| == 0 then -1
    else if ps[0].name == name then 0
    else
      var k := IndexNamed(ps[1..], name);
      assert NamesOf(ps) == [ps[0].name] + NamesOf(ps[1..]);
      if k < 0 then -1 else k + 1
  }

  /** QList::removeAll(p): the list without any occurrence of p, order kept. */
  function Without(ps: seq<Playlist>, p: Playlist): (r: seq<Playlist>)
    ensures p !in r
    ensures forall i :: 0 <= i < |r| ==> r[i] in ps
    ensures forall i :: 0 <= i < |ps| && ps[i] != p ==> ps[i] in r
    ensures |r| <= |ps|
    decreases |ps|
  {
    if |ps| == 0 then [] else (if ps[0] == p then [] else [ps[0]]) + Without(ps[1..], p)
  }

  /** Removal works piecewise, so the remaining playlists keep their order. */
  lemma {:induction false} WithoutAppend(a: seq<Playlist>, b: seq<Playlist>, p: Playlist)
    ensures Without(a + b, p) == Without(a, p) + Without(b, p)
    decreases |a|
  {
    if |a| == 0 {
      assert a + b == b;
    } else {
      var x, t := a[0], a[1..];
      var head := if x == p then [] else [x];
      assert Without(a + b, p) == head + Without(t + b, p) by {
        assert a + b == [x] + (t + b);
        WithoutCons(x, t + b, p);
      }
      assert Without(a, p) == head + Without(t, p) by {
        assert a == [x] + t;
        WithoutCons(x, t, p);
      }
      WithoutAppend(t, b, p);
      ConcatShift(Without(a + b, p), Without(t + b, p), Without(a, p), head, Without(t, p), Without(b, p));
    }
  }

  /** x == h + (u + v) and z == h + u give x == z + v. */
  lemma ConcatShift<T>(x: seq<T>, y: seq<T>, z: seq<T>, h: seq<T>, u: seq<T>, v: seq<T>)
    requires x == h + y && y == u + v && z == h + u
    ensures x == z + v
  {
  }

  lemma WithoutCons(x: Playlist, t: seq<Playlist>, p: Playlist)
    ensures Without([x] + t, p) == (if x == p then [] else [x]) + Without(t, p)
  {
    assert ([x] + t)[0] == x && ([x] + t)[1..] == t;
  }

  /** Removing a playlist that is not in the list leaves the list as it is. */
  lemma {:induction false} WithoutAbsent(ps: seq<Playlist>, p: Playlist)
    requires p !in ps
    ensures Without(ps, p) == ps
    decreases |ps|
  {
    if |ps| > 0 {
      assert ps[0] != p;
      WithoutAbsent(ps[1..], p);
    }
  }

  /** The names of the playlists other than `excluding` that hold `id`, in list order. */
  function HoldingNames(ps: seq<Playlist>, id: string, excluding: string): seq<string>
    reads ps
    decreases |ps|
  {
    if |ps| == 0 then []
    else
      var last := ps[|ps| - 1];
      HoldingNames(ps[..|ps| - 1], id, excluding) +
        (if last.name != excluding && id in last.videoItems then [last.name] else [])
  }

  /** A name is listed iff some playlist of that name, other than the excluded one,
      holds the id. */
  lemma {:induction false} HoldingNamesMembers(ps: seq<Playlist>, id: string, excluding: string, x: string)
    ensures x in HoldingNames(ps, id, excluding) <==>
      exists i :: 0 <= i < |ps| && ps[i].name == x && x != excluding && id in ps[i].videoItems
    decreases |ps|
  {
    if |ps| > 0 {
      var prefix := ps[..|ps| - 1];
      HoldingNamesMembers(prefix, id, excluding, x);
      if exists i :: 0 <= i < |ps| && ps[i].name == x && x != excluding && id in ps[i].videoItems {
        var i :| 0 <= i < |ps| && ps[i].name == x && x != excluding && id in ps[i].videoItems;
        if i < |ps| - 1 {
          assert prefix[i] == ps[i];
        }
      }
    }
  }

  /** The names createPlaylist tries: the base name, then "base 2", "base 3", ... */
  function Candidate(base: string, n: nat): string
  {
    if n <= 1 then base else base + " " + NatToString(n)
  }

  lemma CandidateDistinct(base: string, i: nat, j: nat)
    requires 1 <= i < j
    ensures Candidate(base, i) != Candidate(base, j)
  {
    var cj := Candidate(base, j);
    assert cj[|base| + 1..] == NatToString(j);
    ParseNatToString(j);
    if i > 1 {
      var ci := Candidate(base, i);
      assert ci[|base| + 1..] == NatToString(i);
      ParseNatToString(i);
    }
  }

  /** The candidates before the n-th. */
  ghost function Tried(base: string, n: nat): set<string>
  {
    set j: nat | 1 <= j < n :: Candidate(base, j)
  }

  /** Trying one more candidate adds a name not tried before, so n - 1 names have been
      tried before the n-th. */
  lemma {:induction false} TriedCount(base: string, n: nat)
    requires n >= 1
    ensures |Tried(base, n)| == n - 1
    ensures Candidate(base, n) !in Tried(base, n)
    ensures Tried(base, n + 1) == Tried(base, n) + {Candidate(base, n)}
    decreases n
  {
    assert Candidate(base, n) !in Tried(base, n) by {
      forall j: nat | 1 <= j < n
        ensures Candidate(base, j) != Candidate(base, n)
      {
        CandidateDistinct(base, j, n);
      }
    }
    if n == 1 {
      assert Tried(base, 1) == {};
    } else {
      TriedCount(base, n - 1);
    }
  }

  lemma SubsetSize(a: set<string>, b: set<string>)
    requires a <= b
    ensures |a| <= |b|
  {
    assert b == a + (b - a);
    assert a * (b - a) == {};
  }

  /** The document after playlistNameChanged moves a playlist's object to its new key:
      an empty object is stored as the string "null", which reads back as empty. */
  function Renamed(doc: Document, name: string, oldName: string): (r: Document)
    ensures name in r && ToObject(Value(r, name)) == ToObject(Value(doc, oldName))
    ensures name != oldName ==> oldName !in r
    ensures forall k :: k in doc && k != name && k != oldName ==> k in r && r[k] == doc[k]
    ensures r.Keys == (doc.Keys - {oldName}) + {name}
    ensures ToObject(Value(doc, oldName)) == map[] ==> r[name] == JString("null")
    ensures ToObject(Value(doc, oldName)) != map[] ==> r[name] == JObject(ToObject(Value(doc, oldName)))
  {
    var po := ToObject(Value(doc, oldName));
    (doc - {oldName})[name := if po == map[] then JString("null") else JObject(po)]
  }

  /** playlistItemsAdded's loop: each item is stored under a until the first one whose
      id is already there; the flag says whether the loop got to the end. */
  function PutAll(doc: Document, a: string, items: seq<Item>): (Document, bool)
    decreases |items|
  {
    if |items| == 0 then (doc, true)
    else if items[0].id in Under(doc, a) then (doc, false)
    else PutAll(PutItem(doc, a, items[0]), a, items[1..])
  }

  /** Whatever the batch, entries already in the document keep their values. */
  lemma {:induction false} PutAllKeeps(doc: Document, a: string, items: seq<Item>)
    ensures var r := PutAll(doc, a, items).0;
      (forall k :: k in doc && k != a ==> k in r && r[k] == doc[k]) &&
      (forall k :: k in Under(doc, a) ==> k in Under(r, a) && ToObject(Value(r, a))[k] == ToObject(Value(doc, a))[k])
    decreases |items|
  {
    if |items| > 0 && items[0].id !in Under(doc, a) {
      PutItemFresh(doc, a, items[0]);
      PutAllKeeps(PutItem(doc, a, items[0]), a, items[1..]);
    }
  }

  /** `item` is stored under a in `doc` and reads back as itself. */
  ghost predicate ReadsBack(doc: Document, a: string, item: Item)
  {
    item.id in Under(doc, a) && ItemOf(item.id, Value(ToObject(Value(doc, a)), item.id)) == item
  }

  /** The first item of a batch that goes in reads back after the whole batch. */
  lemma ReadsBackFirst(doc: Document, a: string, items: seq<Item>)
    requires |items| > 0 && items[0].id !in Under(doc, a)
    ensures ReadsBack(PutAll(doc, a, items).0, a, items[0])
  {
    var d := PutItem(doc, a, items[0]);
    PutItemReadBack(doc, a, items[0]);
    PutAllKeeps(d, a, items[1..]);
  }

  /** A batch whose ids are distinct and all new goes through to the upload, and every
      item reads back from the document under its id. */
  lemma {:induction false} PutAllComplete(doc: Document, a: string, items: seq<Item>)
    requires forall i, j :: 0 <= i < j < |items| ==> items[i].id != items[j].id
    requires forall i :: 0 <= i < |items| ==> items[i].id !in Under(doc, a)
    ensures PutAll(doc, a, items).1
    ensures forall i :: 0 <= i < |items| ==> ReadsBack(PutAll(doc, a, items).0, a, items[i])
    decreases |items|
  {
    if |items| > 0 {
      var d := PutItem(doc, a, items[0]);
      var rest := items[1..];
      PutItemFresh(doc, a, items[0]);
      assert Under(d, a) == Under(doc, a) + {items[0].id};
      forall i | 0 <= i < |rest|
        ensures rest[i].id !in Under(d, a)
      {
        assert rest[i] == items[i + 1];
      }
      PutAllComplete(d, a, rest);
      ReadsBackFirst(doc, a, items);
      var r := PutAll(d, a, rest).0;
      assert PutAll(doc, a, items).0 == r;
      forall i | 0 < i < |items|
        ensures ReadsBack(r, a, items[i])
      {
        assert items[i] == rest[i - 1];
      }
    }
  }

  /** One id already under a stops the loop before the upload. */
  lemma {:induction false} PutAllStops(doc: Document, a: string, items: seq<Item>, i: int)
    requires 0 <= i < |items| && items[i].id in Under(doc, a)
    ensures !PutAll(doc, a, items).1
    decreases |items|
  {
    if items[0].id !in Under(doc, a) {
      var d := PutItem(doc, a, items[0]);
      PutItemFresh(doc, a, items[0]);
      assert Under(d, a) == Under(doc, a) + {items[0].id};
      assert items[1..][i - 1] == items[i];
      PutAllStops(d, a, items[1..], i - 1);
    }
  }

  /** A playlist signal that asks for nothing the document (under the playlist's key
      `name`) does not already hold. */
  predicate Echoes(doc: Document, name: string, s: Signal)
  {
    s.PlaylistChanged? || (s.ItemAdded? && s.item.id in Under(doc, name))
  }

  /** What one signal of the managed playlist `name` does through the slot it reaches:
      the document afterwards, the documents uploaded and the notices. Every upload is
      the new document; a stopped itemsAdded batch keeps what it stored without an
      upload; a rename onto a name that is already a key changes nothing, so the
      document keeps the playlist under its old key. */
  function SlotEffect(doc: Document, name: string, s: Signal): (r: (Document, seq<Document>, seq<string>))
    ensures r.1 == [] || r.1 == [r.0]
    ensures r.2 != [] ==> s.NameChanged?
    ensures Echoes(doc, name, s) ==> r == (doc, [], [])
    ensures s.NameChanged? && name in doc ==> r == (doc, [], [])
    ensures s.NameChanged? && name !in doc ==> r.0 == Renamed(doc, s.name, s.oldName) && r.1 == [r.0]
  {
    match s
    case NameChanged(newName, oldName) =>
      if name in doc then (doc, [], [])
      else
        var d := Renamed(doc, newName, oldName);
        (d, [d], ["Playlist " + oldName + " renamed to " + newName])
    case PlaylistChanged => (doc, [], [])
    case ItemAdded(item) =>
      if item.id in Under(doc, name) then (doc, [], [])
      else var d := PutItem(doc, name, item); (d, [d], [])
    case ItemsAdded(items) =>
      var put := PutAll(doc, name, items);
      (put.0, if put.1 then [put.0] else [], [])
    case ItemRemoved(id) =>
      if id !in Under(doc, name) then (doc, [], [])
      else var d := RemoveKey(doc, name, id); (d, [d], [])
    case ItemsRemoved(ids) =>
      var d := WithoutKeys(doc, name, set id | id in ids); (d, [d], [])
  }

  /** The signals of playlist `name` delivered in order: the document after the last,
      with the uploads and notices of all of them in order. */
  function Dispatched(doc: Document, name: string, signals: seq<Signal>): (r: (Document, seq<Document>, seq<string>))
    ensures |r.1| <= |signals|
    decreases |signals|
  {
    if |signals| == 0 then (doc, [], [])
    else
      var before := Dispatched(doc, name, signals[..|signals| - 1]);
      var step := SlotEffect(before.0, name, signals[|signals| - 1]);
      (step.0, before.1 + step.1, before.2 + step.2)
  }

  /** One more signal delivered: its slot effect on the document so far, with its
      uploads and notices after the earlier ones. */
  lemma DispatchedStep(doc: Document, name: string, signals: seq<Signal>, i: nat)
    requires i < |signals|
    ensures var before := Dispatched(doc, name, signals[..i]);
      var step := SlotEffect(before.0, name, signals[i]);
      Dispatched(doc, name, signals[..i + 1]) == (step.0, before.1 + step.1, before.2 + step.2)
  {
    assert signals[..i + 1][..i] == signals[..i];
  }

  /** Signals that only echo the document change nothing and upload nothing. */
  lemma {:induction false} DispatchedEchoes(doc: Document, name: string, signals: seq<Signal>)
    requires forall i :: 0 <= i < |signals| ==> Echoes(doc, name, signals[i])
    ensures Dispatched(doc, name, signals) == (doc, [], [])
    decreases |signals|
  {
    if |signals| > 0 {
      var init := signals[..|signals| - 1];
      assert forall i :: 0 <= i < |init| ==> init[i] == signals[i];
      DispatchedEchoes(doc, name, init);
    }
  }

  /** PlaylistsManager: favorites keyed by id, the managed playlists in order, and the
      mirrored document. */
  class PlaylistsManager {
    var document: Document
    var favorites: map<string, Item>
    var playlists: seq<Playlist>

    ghost predicate Valid()
      reads this
    {
      KeyedById(favorites)
    }

    constructor ()
      ensures Valid()
      ensures document == map[] && favorites == map[] && playlists == []
    {
      document, favorites, playlists := map[], map[], [];
    }

    /** Drops every favorite and playlist and adopts the given document. */
    method SetDocument(doc: Document)
      modifies this
      ensures Valid()
      ensures document == doc && favorites == map[] && playlists == []
    {
      favorites := map[];
      playlists := [];
      document := doc;
    }

    function IsFavorited(id: string): (b: bool)
      reads this
      ensures b <==> id in favorites
    {
      id in favorites
    }

    /** A favorite already present changes nothing. Otherwise the item is stored; when the
        document has no Favorites.<id> yet, it is written there with the current time as
        timestamp and the document is uploaded. */
    method AddFavorite(id: string, title: string, subTitle: string, thumbnail: string,
                       duration: string, timestamp: string, nowMs: nat)
      returns (uploads: seq<Document>, notices: seq<string>)
      requires Valid()
      modifies this
      ensures Valid() && playlists == old(playlists)
      ensures id in old(favorites) ==>
        favorites == old(favorites) && document == old(document) && uploads == [] && notices == []
      ensures id !in old(favorites) && id !in Under(old(document), FavoritesKey) ==>
        var it := Item(id, title, subTitle, thumbnail, duration, NatToString(nowMs));
        favorites == old(favorites)[id := it] &&
        document == old(document)[FavoritesKey := JObject(ToObject(Value(old(document), FavoritesKey))[id := ItemJson(it)])] &&
        uploads == [document] && notices == [FavoriteAddedMessage(it)]
      ensures id !in old(favorites) && id in Under(old(document), FavoritesKey) ==>
        var it := Item(id, title, subTitle, thumbnail, duration, timestamp);
        favorites == old(favorites)[id := it] && document == old(document) &&
        uploads == [] && notices == [FavoriteAddedMessage(it)]
    {
      if id in favorites {
        return [], [];
      }
      var ts := timestamp;
      uploads := [];
      if id !in Under(document, FavoritesKey) {
        ts := NatToString(nowMs);
        var stored := Item(id, title, subTitle, thumbnail, duration, ts);
        PutItemFresh(document, FavoritesKey, stored);
        document := PutItem(document, FavoritesKey, stored);
        uploads := [document];
      }
      var it := MakeItem(id, title, subTitle, thumbnail, duration, ts);
      favorites := favorites[id := it];
      notices := [FavoriteAddedMessage(it)];
    }

    /** Removing an id that is not a favorite reports false. Otherwise it leaves the
        favorites, and the document too when it is there, which is then uploaded. */
    method RemoveFavorite(id: string) returns (removed: bool, uploads: seq<Document>, notices: seq<string>)
      requires Valid()
      modifies this
      ensures Valid() && playlists == old(playlists)
      ensures removed <==> id in old(favorites)
      ensures favorites == old(favorites) - {id}
      ensures !removed ==> document == old(document) && uploads == [] && notices == []
      ensures removed ==>
        document == WithoutKeys(old(document), FavoritesKey, {id}) &&
        uploads == (if id in Under(old(document), FavoritesKey) then [document] else []) &&
        notices == [FavoriteRemovedMessage(old(favorites)[id])]
    {
      if id !in favorites {
        return false, [], [];
      }
      uploads := [];
      WithoutKeysStep(document, FavoritesKey, {}, id);
      assert WithoutKeys(document, FavoritesKey, {}) == document;
      assert {} + {id} == {id};
      if id in Under(document, FavoritesKey) {
        document := RemoveKey(document, FavoritesKey, id);
        uploads := [document];
      }
      var it := favorites[id];
      favorites := favorites - {id};
      notices := [FavoriteRemovedMessage(it)];
      removed := true;
    }

    /** Every listed favorite is removed, from the document too where it is there, and
        the document is uploaded exactly once, even when nothing was removed. */
    method RemoveFavorites(ids: seq<string>) returns (uploads: seq<Document>, notices: seq<string>)
      requires Valid()
      modifies this
      ensures Valid() && playlists == old(playlists)
      ensures favorites == old(favorites) - (set id | id in ids)
      ensures document == WithoutKeys(old(document), FavoritesKey, (set id | id in ids) * old(favorites).Keys)
      ensures uploads == [document]
      ensures notices == FavoritesRemovedNotices(old(favorites), ids)
    {
      var before := favorites;
      ghost var doc0 := document;
      notices := [];
      assert WithoutKeys(doc0, FavoritesKey, {}) == doc0;
      ghost var done: set<string> := {};
      var i := 0;
      while i < |ids|
        invariant 0 <= i <= |ids|
        invariant done == set j | 0 <= j < i :: ids[j]
        invariant favorites == before - done
        invariant document == WithoutKeys(doc0, FavoritesKey, done * before.Keys)
        invariant notices == if |ids| == 1 && i == 1 then FavoritesRemovedNotices(before, ids) else []
        invariant playlists == old(playlists)
      {
        var id := ids[i];
        if id in favorites {
          WithoutKeysStep(doc0, FavoritesKey, done * before.Keys, id);
          if id in Under(document, FavoritesKey) {
            document := RemoveKey(document, FavoritesKey, id);
          }
          assert (done + {id}) * before.Keys == done * before.Keys + {id};
          var it := favorites[id];
          favorites := favorites - {id};
          if |ids| == 1 {
            notices := ["Removed " + Label(it) + " from favorites"];
          }
        } else {
          assert (done + {id}) * before.Keys == done * before.Keys;
        }
        done := done + {id};
        i := i + 1;
        assert done == set j | 0 <= j < i :: ids[j];
      }
      assert done == set id | id in ids;
      uploads := [document];
      if |ids| > 1 {
        notices := FavoritesRemovedNotices(before, ids);
      }
    }

    /** The favorites in ascending id order, each once. */
    method FavoriteItems() returns (r: seq<Item>)
      requires Valid()
      ensures |r| == |favorites|
      ensures StrictlySorted(Ids(r))
      ensures forall i :: 0 <= i < |r| ==> r[i].id in favorites && favorites[r[i].id] == r[i]
      ensures forall k :: k in favorites ==> k in Ids(r)
    {
      var keys := SortedKeys(favorites.Keys);
      r := [];
      var i := 0;
      while i < |keys|
        invariant 0 <= i <= |keys|
        invariant |r| == i
        invariant forall j :: 0 <= j < i ==> r[j] == favorites[keys[j]]
      {
        r := r + [favorites[keys[i]]];
        i := i + 1;
      }
      assert Ids(r) == keys;
    }

    /** The playlist names, in list order. */
    method PlaylistNames() returns (names: seq<string>)
      ensures |names| == |playlists|
      ensures forall i :: 0 <= i < |playlists| ==> names[i] == playlists[i].name
    {
      names := [];
      var i := 0;
      while i < |playlists|
        invariant 0 <= i <= |playlists|
        invariant |names| == i
        invariant forall j :: 0 <= j < i ==> names[j] == playlists[j].name
      {
        names := names + [playlists[i].name];
        i := i + 1;
      }
    }

    /** playlist(name): the first playlist with that name, if any. */
    method PlaylistNamed(name: string) returns (r: Option<Playlist>)
      ensures IndexNamed(playlists, name) < 0 ==> r == None
      ensures IndexNamed(playlists, name) >= 0 ==> r == Some(playlists[IndexNamed(playlists, name)])
    {
      var i := 0;
      while i < |playlists|
        invariant 0 <= i <= |playlists|
        invariant forall j :: 0 <= j < i ==> playlists[j].name != name
      {
        if playlists[i].name == name {
          return Some(playlists[i]);
        }
        i := i + 1;
      }
      r := None;
    }

    /** itemPlaylists(id, excluding): the names of the other playlists holding id. */
    method ItemPlaylists(id: string, excluding: string) returns (names: seq<string>)
      ensures names == HoldingNames(playlists, id, excluding)
    {
      names := [];
      var i := 0;
      while i < |playlists|
        invariant 0 <= i <= |playlists|
        invariant names == HoldingNames(playlists[..i], id, excluding)
      {
        assert playlists[..i + 1][..i] == playlists[..i];
        var p := playlists[i];
        if p.name != excluding && p.ContainsItem(id) {
          names := names + [p.name];
        }
        i := i + 1;
      }
      assert playlists[..|playlists|] == playlists;
    }

    /** A playlist whose name is already managed is not added. Otherwise it is appended,
        and a null entry is added to the document, and uploaded, only if its name was not
        a key yet. */
    method AddPlaylist(p: Playlist) returns (uploads: seq<Document>)
      modifies this
      ensures favorites == old(favorites)
      ensures p.name in NamesOf(old(playlists)) ==>
        playlists == old(playlists) && document == old(document) && uploads == []
      ensures p.name !in NamesOf(old(playlists)) ==>
        playlists == old(playlists) + [p] &&
        (p.name in old(document) ==> document == old(document) && uploads == []) &&
        (p.name !in old(document) ==> document == old(document)[p.name := JNull] && uploads == [document])
    {
      var i := 0;
      while i < |playlists|
        invariant 0 <= i <= |playlists|
        invariant forall j :: 0 <= j < i ==> playlists[j].name != p.name
      {
        if playlists[i].name == p.name {
          return [];
        }
        i := i + 1;
      }
      uploads := [];
      if p.name !in document {
        document := document[p.name := JNull];
        uploads := [document];
      }
      playlists := playlists + [p];
    }

    /** createPlaylist(name): a new empty playlist under the first of "name", "name 2",
        "name 3", ... that is not a document key (an empty name stands for
        "Unnamed Playlist"); the key is added with a null value and uploaded. */
    method CreatePlaylist(name: string) returns (p: Playlist, uploads: seq<Document>, notices: seq<string>)
      modifies this
      ensures fresh(p) && p.Valid() && p.videoItems == map[]
      ensures var base := if name == "" then DefaultName else name;
        exists n: nat :: n >= 1 && p.name == Candidate(base, n) &&
          forall j: nat :: 1 <= j < n ==> Candidate(base, j) in old(document)
      ensures p.name !in old(document)
      ensures document == old(document)[p.name := JNull] && uploads == [document]
      ensures playlists == old(playlists) + [p] && favorites == old(favorites)
      ensures notices == ["Created new playlist " + p.name]
    {
      p := new Playlist();
      // The new playlist is not connected to the library yet, so the rename signals
      // go nowhere.
      var renamed: seq<Signal>;
      if name != "" {
        renamed := p.SetName(name);
      }
      var base := p.name;
      var count: nat := 2;
      TriedCount(base, 1);
      while p.name in document
        invariant count >= 2 && p.name == Candidate(base, count - 1)
        invariant Tried(base, count - 1) <= document.Keys
        invariant count - 2 <= |document.Keys|
        invariant p.Valid() && p.videoItems == map[]
        invariant document == old(document) && playlists == old(playlists) && favorites == old(favorites)
        decreases |document.Keys| + 2 - count
      {
        TriedCount(base, count - 1);
        TriedCount(base, count);
        SubsetSize(Tried(base, count), document.Keys);
        renamed := p.SetName(base + " " + NatToString(count));
        count := count + 1;
      }
      assert forall j: nat :: 1 <= j < count - 1 ==> Candidate(base, j) in Tried(base, count - 1);
      document := document[p.name := JNull];
      uploads := [document];
      playlists := playlists + [p];
      notices := ["Created new playlist " + p.name];
    }

    /** deletePlaylist(name): false when no playlist has that name; otherwise its key is
        removed from the document, which is uploaded, and it leaves the list. */
    method DeletePlaylist(name: string) returns (deleted: bool, uploads: seq<Document>, notices: seq<string>)
      modifies this
      ensures favorites == old(favorites)
      ensures deleted <==> name in NamesOf(old(playlists))
      ensures !deleted ==> playlists == old(playlists) && document == old(document) && uploads == [] && notices == []
      ensures deleted ==>
        var target := old(playlists)[IndexNamed(old(playlists), name)];
        playlists == Without(old(playlists), target) && target !in playlists &&
        document == old(document) - {name} && uploads == [document] &&
        notices == ["Playlist " + name + " deleted"]
    {
      var found := PlaylistNamed(name);
      if found.None? {
        return false, [], [];
      }
      var target := found.value;
      assert target.name == name;
      playlists := Without(playlists, target);
      document := document - {target.name};
      uploads := [document];
      notices := ["Playlist " + name + " deleted"];
      deleted := true;
    }

    /** Slot for a playlist's nameChanged: nothing when its new name is already a key;
        otherwise the old key's object moves to the new key and is uploaded. */
    method PlaylistNameChanged(p: Playlist, name: string, oldName: string)
      returns (uploads: seq<Document>, notices: seq<string>)
      modifies this
      ensures favorites == old(favorites) && playlists == old(playlists)
      ensures p.name in old(document) ==> document == old(document) && uploads == [] && notices == []
      ensures p.name !in old(document) ==>
        document == Renamed(old(document), name, oldName) && uploads == [document] &&
        notices == ["Playlist " + oldName + " renamed to " + name]
    {
      if p.name in document {
        return [], [];
      }
      document := Renamed(document, name, oldName);
      uploads := [document];
      notices := ["Playlist " + oldName + " renamed to " + name];
    }

    /** Slot for itemAdded: nothing when the id is already under the playlist's key;
        otherwise the item is stored there and the document uploaded. */
    method PlaylistItemAdded(p: Playlist, item: Item) returns (uploads: seq<Document>)
      modifies this
      ensures favorites == old(favorites) && playlists == old(playlists)
      ensures item.id in Under(old(document), p.name) ==> document == old(document) && uploads == []
      ensures item.id !in Under(old(document), p.name) ==>
        document == old(document)[p.name := JObject(ToObject(Value(old(document), p.name))[item.id := ItemJson(item)])] &&
        uploads == [document]
    {
      if item.id in Under(document, p.name) {
        return [];
      }
      PutItemFresh(document, p.name, item);
      document := PutItem(document, p.name, item);
      uploads := [document];
    }

    /** Slot for itemsAdded: stores the items in order and uploads once, but gives up,
        without uploading, at the first id already under the playlist's key. */
    method PlaylistItemsAdded(p: Playlist, items: seq<Item>) returns (uploads: seq<Document>)
      modifies this
      ensures favorites == old(favorites) && playlists == old(playlists)
      ensures document == PutAll(old(document), p.name, items).0
      ensures uploads == if PutAll(old(document), p.name, items).1 then [document] else []
    {
      var i := 0;
      while i < |items|
        invariant 0 <= i <= |items|
        invariant PutAll(document, p.name, items[i..]) == PutAll(old(document), p.name, items)
        invariant favorites == old(favorites) && playlists == old(playlists)
      {
        assert items[i..][1..] == items[i + 1..];
        if items[i].id in Under(document, p.name) {
          return [];
        }
        document := PutItem(document, p.name, items[i]);
        i := i + 1;
      }
      uploads := [document];
    }

    /** Slot for itemRemoved: nothing when the id is not under the playlist's key;
        otherwise it is removed there and the document uploaded. */
    method PlaylistItemRemoved(p: Playlist, id: string) returns (uploads: seq<Document>)
      modifies this
      ensures favorites == old(favorites) && playlists == old(playlists)
      ensures id !in Under(old(document), p.name) ==> document == old(document) && uploads == []
      ensures id in Under(old(document), p.name) ==>
        document == RemoveKey(old(document), p.name, id) && uploads == [document]
    {
      if id !in Under(document, p.name) {
        return [];
      }
      document := RemoveKey(document, p.name, id);
      uploads := [document];
    }

    /** Slot for itemsRemoved: every listed id under the playlist's key is removed and
        the document is uploaded once. */
    method PlaylistItemsRemoved(p: Playlist, ids: seq<string>) returns (uploads: seq<Document>)
      modifies this
      ensures favorites == old(favorites) && playlists == old(playlists)
      ensures document == WithoutKeys(old(document), p.name, set id | id in ids)
      ensures uploads == [document]
    {
      ghost var doc0 := document;
      assert WithoutKeys(doc0, p.name, {}) == doc0;
      ghost var done: set<string> := {};
      var i := 0;
      while i < |ids|
        invariant 0 <= i <= |ids|
        invariant done == set j | 0 <= j < i :: ids[j]
        invariant document == WithoutKeys(doc0, p.name, done)
        invariant favorites == old(favorites) && playlists == old(playlists)
      {
        WithoutKeysStep(doc0, p.name, done, ids[i]);
        if ids[i] in Under(document, p.name) {
          document := RemoveKey(document, p.name, ids[i]);
        }
        done := done + {ids[i]};
        i := i + 1;
        assert done == set j | 0 <= j < i :: ids[j];
      }
      assert done == set id | id in ids;
      uploads := [document];
    }

    /** The slot a signal of `p` reaches, by the signal's kind. */
    method Deliver(p: Playlist, signal: Signal) returns (uploads: seq<Document>, notices: seq<string>)
      modifies this
      ensures favorites == old(favorites) && playlists == old(playlists)
      ensures (document, uploads, notices) == SlotEffect(old(document), p.name, signal)
    {
      uploads, notices := [], [];
      match signal {
        case NameChanged(newName, oldName) =>
          uploads, notices := PlaylistNameChanged(p, newName, oldName);
        case ItemAdded(item) =>
          if item.id !in Under(document, p.name) {
            PutItemFresh(document, p.name, item);
          }
          uploads := PlaylistItemAdded(p, item);
        case ItemsAdded(items) =>
          uploads := PlaylistItemsAdded(p, items);
        case ItemRemoved(id) =>
          uploads := PlaylistItemRemoved(p, id);
        case ItemsRemoved(ids) =>
          uploads := PlaylistItemsRemoved(p, ids);
        case PlaylistChanged =>
      }
    }

    /** The connections made when a playlist joins the library: its rename and item
        signals reach the slots above while it is managed, and go nowhere otherwise.
        Signals that only echo what the document already holds change nothing. */
    method Dispatch(p: Playlist, signals: seq<Signal>) returns (uploads: seq<Document>, notices: seq<string>)
      modifies this
      ensures favorites == old(favorites) && playlists == old(playlists)
      ensures p !in old(playlists) ==> document == old(document) && uploads == [] && notices == []
      ensures p in old(playlists) ==> (document, uploads, notices) == Dispatched(old(document), p.name, signals)
      ensures (forall i :: 0 <= i < |signals| ==> Echoes(old(document), p.name, signals[i])) ==>
        document == old(document) && uploads == [] && notices == []
    {
      uploads, notices := [], [];
      if p !in playlists {
        return;
      }
      ghost var doc0 := document;
      var i := 0;
      while i < |signals|
        invariant 0 <= i <= |signals|
        invariant favorites == old(favorites) && playlists == old(playlists)
        invariant (document, uploads, notices) == Dispatched(doc0, p.name, signals[..i])
      {
        DispatchedStep(doc0, p.name, signals, i);
        ghost var before := document;
        var u, n := Deliver(p, signals[i]);
        assert (document, u, n) == SlotEffect(before, p.name, signals[i]);
        uploads := uploads + u;
        notices := notices + n;
        i := i + 1;
      }
      assert signals[..i] == signals;
      if forall j :: 0 <= j < |signals| ==> Echoes(doc0, p.name, signals[j]) {
        DispatchedEchoes(doc0, p.name, signals);
      }
    }
  }
}
