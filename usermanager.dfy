/** The user's cloud copy of the library (UserManager): a revision-guarded upload of the
    videos document, the change feed that fetches it back, the rebuild of the library
    from the first document fetched, logout, and the activation code. */
module Sync {
  import opened Text
  import opened StringOrder
  import opened Videos
  import opened JsonDoc
  import opened Playlists
  import opened Library
  import opened Wrappers
  import Application

  /** The requests sent to the database. None is answered here: each answer arrives
      later as one of the reply events of UserManager. */
  datatype Request =
    | StartSession(user: string, password: string)
    | Listen(db: string, doc: string)
    | StopListen(db: string, doc: string)
    | Fetch(db: string, doc: string)
    | Write(db: string, doc: string, body: Document)
    | Head(db: string, doc: string)

  /** The id of the user's videos document. */
  const VideosDoc: string := "videos"
  const RevisionKey: string := "_rev"
  const IdKey: string := "_id"
  const ConnectionProblem: string := "Connection problem to BeatWhale server."

  /** The user's own database. */
  function UserDb(username: string): string
  {
    "u_" + username
  }

  /** A top-level key of the videos document that names a playlist. */
  predicate IsPlaylistKey(k: string)
  {
    k != IdKey && k != RevisionKey && k != FavoritesKey
  }

  /** The playlist keys among `keys`, in the same order. */
  function PlaylistKeys(keys: seq<string>): (r: seq<string>)
    ensures forall x :: x in r <==> x in keys && IsPlaylistKey(x)
  {
    if |keys| == 0 then []
    else
      var init := keys[..|keys| - 1];
      var last := keys[|keys| - 1];
      assert keys == init + [last];
      PlaylistKeys(init) + (if IsPlaylistKey(last) then [last] else [])
  }

  lemma PlaylistKeysStep(keys: seq<string>, i: nat)
    requires i < |keys|
    ensures PlaylistKeys(keys[..i + 1]) ==
            PlaylistKeys(keys[..i]) + (if IsPlaylistKey(keys[i]) then [keys[i]] else [])
  {
    assert keys[..i + 1][..i] == keys[..i];
  }

  /** Keeping part of a sorted list keeps it sorted. */
  lemma {:induction false} PlaylistKeysSorted(keys: seq<string>)
    requires StrictlySorted(keys)
    ensures StrictlySorted(PlaylistKeys(keys))
  {
    if |keys| > 0 {
      var init := keys[..|keys| - 1];
      var last := keys[|keys| - 1];
      assert StrictlySorted(init);
      PlaylistKeysSorted(init);
      var before := PlaylistKeys(init);
      if IsPlaylistKey(last) {
        forall x | x in before
          ensures Below(x, last)
        {
          var k :| 0 <= k < |init| && init[k] == x;
          assert keys[k] == x;
        }
        var r := before + [last];
        forall i, j | 0 <= i < j < |r|
          ensures Below(r[i], r[j])
        {
          if j < |before| {
            assert r[i] == before[i] && r[j] == before[j];
          } else {
            assert r[i] in before;
          }
        }
      }
    }
  }

  /** The item the rebuild stores in a playlist for `key` of the playlist object
      `obj`: the stored fields, with an empty timestamp replaced by the time of the
      rebuild. */
  function Restored(obj: map<string, Json>, key: string, nowMs: nat): Item
  {
    var it := ItemOf(key, Value(obj, key));
    it.(timestamp := Stamp(it.timestamp, nowMs))
  }

  /** The contents the rebuild gives the playlist stored under `name`. */
  function PlaylistContents(doc: Document, name: string, nowMs: nat): map<string, Item>
  {
    var obj := ToObject(Value(doc, name));
    map k | k in obj :: Restored(obj, k, nowMs)
  }

  /** The favorites the rebuild makes from the Favorites object. */
  function FavoritesContents(doc: Document): map<string, Item>
  {
    var obj := ToObject(Value(doc, FavoritesKey));
    map k | k in obj :: ItemOf(k, Value(obj, k))
  }

  /** Round trip: an item the library wrote under Favorites, or under a playlist's key
      with a timestamp (the library always writes one), comes back unchanged from the
      rebuild. */
  lemma {:induction false} RebuildReadsBack(doc: Document, name: string, item: Item, nowMs: nat)
    requires item.id !in Under(doc, name)
    ensures name == FavoritesKey ==>
      item.id in FavoritesContents(PutItem(doc, name, item)) && FavoritesContents(PutItem(doc, name, item))[item.id] == item
    ensures item.timestamp != "" ==>
      item.id in PlaylistContents(PutItem(doc, name, item), name, nowMs) &&
      PlaylistContents(PutItem(doc, name, item), name, nowMs)[item.id] == item
  {
    PutItemReadBack(doc, name, item);
  }

  /** One more key of a rebuilt map: the map over keys[..j+1] is the map over keys[..j]
      with keys[j] added. */
  lemma FavoritesPrefixStep(obj: map<string, Json>, keys: seq<string>, j: nat)
    requires j < |keys|
    ensures (map k | k in keys[..j + 1] :: ItemOf(k, Value(obj, k))) ==
            (map k | k in keys[..j] :: ItemOf(k, Value(obj, k)))[keys[j] := ItemOf(keys[j], Value(obj, keys[j]))]
  {
    assert keys[..j + 1] == keys[..j] + [keys[j]];
  }

  lemma PlaylistPrefixStep(obj: map<string, Json>, keys: seq<string>, j: nat, nowMs: nat)
    requires j < |keys|
    ensures (map k | k in keys[..j + 1] :: Restored(obj, k, nowMs)) ==
            (map k | k in keys[..j] :: Restored(obj, k, nowMs))[keys[j] := Restored(obj, keys[j], nowMs)]
  {
    assert keys[..j + 1] == keys[..j] + [keys[j]];
  }

  lemma InPrefixStep(keys: seq<string>, i: nat, x: string)
    requires i < |keys|
    ensures x in keys[..i + 1] <==> x in keys[..i] || x == keys[i]
  {
    assert keys[..i + 1] == keys[..i] + [keys[i]];
  }

  /** A document without a Favorites key rebuilds no favorites. */
  lemma FavoritesContentsAbsent(doc: Document)
    requires FavoritesKey !in doc
    ensures FavoritesContents(doc) == map[]
  {
    assert ToObject(Value(doc, FavoritesKey)) == map[];
  }

  /** An element of a strictly sorted list does not occur before its position. */
  lemma NotBefore(keys: seq<string>, j: nat)
    requires StrictlySorted(keys) && j < |keys|
    ensures keys[j] !in keys[..j]
  {
    forall k | 0 <= k < j
      ensures keys[k] != keys[j]
    {
      StrictlySortedDistinct(keys, k, j);
    }
  }

  /** Every playlist of `ps` holds the contents the rebuild gives its name. */
  ghost predicate HoldContents(ps: seq<Playlist>, doc: Document, nowMs: nat)
    reads ps
  {
    forall j :: 0 <= j < |ps| ==> ps[j].Valid() && ps[j].videoItems == PlaylistContents(doc, ps[j].name, nowMs)
  }

  lemma HoldContentsSnoc(ps: seq<Playlist>, p: Playlist, doc: Document, nowMs: nat)
    requires HoldContents(ps, doc, nowMs)
    requires p.Valid() && p.videoItems == PlaylistContents(doc, p.name, nowMs)
    ensures HoldContents(ps + [p], doc, nowMs)
  {
    assert forall j :: 0 <= j < |ps| ==> (ps + [p])[j] == ps[j];
  }

  lemma NamesSnoc(ps: seq<Playlist>, p: Playlist)
    ensures NamesOf(ps + [p]) == NamesOf(ps) + [p.name]
  {
  }

  /** UserManager's sync state. The database is the log of requests; its replies are
      the event methods. The library and the application object are the singletons
      the rebuild fills in and notifies through. */
  class UserManager {
    const library: PlaylistsManager
    const app: Application.ApplicationManager
    var username: string
    var password: string
    var currentRevision: string
    /** The last document fetched. */
    var videosDocument: Document
    /** The document the next upload sends. */
    var documentToUpload: Document
    var firstTime: bool
    var waitingForChanges: bool
    var documentReadyForUpload: bool
    /** Whether the change feed's signals are connected to this object. */
    var listening: bool
    /** Every database request issued so far, oldest first. */
    var requests: seq<Request>
    /** How many times documentUpdated has been emitted. */
    var updatesAnnounced: nat
    /** The database's side of the exchange: writes of the videos document it has
        not answered yet. */
    var unansweredWrites: nat
    /** The corrected upload's in-flight flag: set by a write and cleared only by the
        answer to it. The engine as written has no such flag. */
    var writeInFlight: bool

    constructor (library: PlaylistsManager, app: Application.ApplicationManager)
      ensures this.library == library && this.app == app
      ensures username == "" && password == "" && currentRevision == ""
      ensures videosDocument == map[] && documentToUpload == map[]
      ensures firstTime && !waitingForChanges && !documentReadyForUpload
      ensures !listening && requests == [] && updatesAnnounced == 0
      ensures unansweredWrites == 0 && !writeInFlight
    {
      this.library := library;
      this.app := app;
      username, password, currentRevision := "", "", "";
      videosDocument, documentToUpload := map[], map[];
      firstTime, waitingForChanges, documentReadyForUpload := true, false, false;
      listening := false;
      requests := [];
      updatesAnnounced := 0;
      unansweredWrites, writeInFlight := 0, false;
    }

    /** The library as the rebuild leaves it from `doc`: the document adopted, one
        favorite per Favorites entry, and one playlist per playlist key, in key order,
        holding that key's items. */
    ghost predicate RebuiltFrom(doc: Document, nowMs: nat)
      reads library, library.playlists
    {
      library.document == doc && library.Valid() &&
      library.favorites == FavoritesContents(doc) &&
      StrictlySorted(NamesOf(library.playlists)) &&
      (forall x :: x in NamesOf(library.playlists) <==> x in doc && IsPlaylistKey(x)) &&
      HoldContents(library.playlists, doc, nowMs)
    }

    /** Having gone through every key of `doc` in order, the library is rebuilt. */
    lemma RebuiltAtEnd(doc: Document, entries: seq<string>, nowMs: nat)
      requires StrictlySorted(entries) && forall x :: x in doc <==> x in entries
      requires library.document == doc && library.Valid()
      requires library.favorites == if FavoritesKey in entries then FavoritesContents(doc) else map[]
      requires NamesOf(library.playlists) == PlaylistKeys(entries)
      requires HoldContents(library.playlists, doc, nowMs)
      ensures RebuiltFrom(doc, nowMs)
    {
      PlaylistKeysSorted(entries);
      if FavoritesKey !in doc {
        FavoritesContentsAbsent(doc);
      }
    }

    /** Stores the credentials and asks for a session. */
    method Login(user: string, pw: string)
      modifies this`username, this`password, this`requests
      ensures username == user && password == pw
      ensures requests == old(requests) + [StartSession(user, pw)]
    {
      username := user;
      password := pw;
      requests := requests + [StartSession(username, password)];
    }

    /** Clears the credentials, marks the next fetch as a first one, then tries to stop
        listening; with the username already cleared that attempt does nothing. */
    method Logout()
      modifies this`username, this`password, this`firstTime, this`listening, this`requests
      ensures username == "" && password == "" && firstTime
      ensures listening == old(listening) && requests == old(requests)
    {
      username := "";
      password := "";
      firstTime := true;
      var stopped := StopListeningToChanges();
    }

    /** Logout with the feed stopped while the username is still known. */
    method LogoutCorrected()
      modifies this`username, this`password, this`firstTime, this`listening, this`requests
      ensures username == "" && password == "" && firstTime
      ensures old(username) != "" ==>
        !listening && requests == old(requests) + [StopListen(UserDb(old(username)), VideosDoc)]
      ensures old(username) == "" ==> listening == old(listening) && requests == old(requests)
    {
      var stopped := StopListeningToChanges();
      username := "";
      password := "";
      firstTime := true;
    }

    /** Connects the change feed and subscribes to the user's videos document. */
    method StartListeningToChanges()
      modifies this`listening, this`requests
      ensures listening
      ensures requests == old(requests) + [Listen(UserDb(username), VideosDoc)]
    {
      listening := true;
      requests := requests + [Listen(UserDb(username), VideosDoc)];
    }

    /** Disconnects and unsubscribes, but only while a username is known. */
    method StopListeningToChanges() returns (issued: bool)
      modifies this`listening, this`requests
      ensures issued <==> username != ""
      ensures issued ==> !listening && requests == old(requests) + [StopListen(UserDb(username), VideosDoc)]
      ensures !issued ==> listening == old(listening) && requests == old(requests)
    {
      if username != "" {
        listening := false;
        requests := requests + [StopListen(UserDb(username), VideosDoc)];
        return true;
      }
      return false;
    }

    /** The feed broke: disconnect and tell the user. */
    method ListeningToChangesFailed(id: string)
      modifies this`listening, app`emitted
      ensures !listening
      ensures app.emitted == old(app.emitted) +
        (if app.notificationsEnabled then [Application.Notification(ConnectionProblem)] else [])
    {
      listening := false;
      app.TriggerNotification(ConnectionProblem);
    }

    /** Writes the pending document, tagged with the current revision, unless the
        waitingForChanges flag is set or nothing is pending; a write sets the flag.
        The flag is all it checks: an earlier write may still be unanswered. */
    method UploadDocument()
      modifies this`documentToUpload, this`waitingForChanges, this`requests, this`unansweredWrites
      ensures old(waitingForChanges) || !documentReadyForUpload ==>
        documentToUpload == old(documentToUpload) && waitingForChanges == old(waitingForChanges) &&
        requests == old(requests) && unansweredWrites == old(unansweredWrites)
      ensures !old(waitingForChanges) && documentReadyForUpload ==>
        documentToUpload == old(documentToUpload)[RevisionKey := JString(currentRevision)] &&
        waitingForChanges && unansweredWrites == old(unansweredWrites) + 1 &&
        requests == old(requests) + [Write(UserDb(username), VideosDoc, documentToUpload)]
    {
      if waitingForChanges || !documentReadyForUpload {
        return;
      }
      documentToUpload := documentToUpload[RevisionKey := JString(currentRevision)];
      requests := requests + [Write(UserDb(username), VideosDoc, documentToUpload)];
      unansweredWrites := unansweredWrites + 1;
      waitingForChanges := true;
    }

    /** A new document replaces any pending one and is uploaded at once if the
        waitingForChanges flag is clear. */
    method UpdateDocument(doc: Document)
      modifies this`documentToUpload, this`documentReadyForUpload, this`waitingForChanges, this`requests,
        this`unansweredWrites
      ensures documentReadyForUpload && waitingForChanges
      ensures old(waitingForChanges) ==>
        documentToUpload == doc && requests == old(requests) && unansweredWrites == old(unansweredWrites)
      ensures !old(waitingForChanges) ==>
        documentToUpload == doc[RevisionKey := JString(currentRevision)] &&
        unansweredWrites == old(unansweredWrites) + 1 &&
        requests == old(requests) + [Write(UserDb(username), VideosDoc, documentToUpload)]
    {
      documentToUpload := doc;
      documentReadyForUpload := true;
      UploadDocument();
    }

    /** A change to the videos document takes its revision, blocks uploads and fetches
        the document; changes to other documents are ignored. */
    method ChangesMade(id: string, revision: string)
      modifies this`waitingForChanges, this`currentRevision, this`requests
      ensures id != VideosDoc ==>
        waitingForChanges == old(waitingForChanges) && currentRevision == old(currentRevision) &&
        requests == old(requests)
      ensures id == VideosDoc ==>
        waitingForChanges && currentRevision == revision &&
        requests == old(requests) + [Fetch(UserDb(username), VideosDoc)]
    {
      if id != VideosDoc {
        return;
      }
      waitingForChanges := true;
      currentRevision := revision;
      requests := requests + [Fetch(UserDb(username), VideosDoc)];
    }

    /** A failed write to the videos document asks for its current revision. */
    method DocumentUpdatedFeedback(success: bool, id: string)
      modifies this`requests
      ensures requests == old(requests) + (if id == VideosDoc && !success then [Head(UserDb(username), VideosDoc)] else [])
    {
      if id != VideosDoc {
        return;
      }
      if success {
        return;
      }
      requests := requests + [Head(UserDb(username), VideosDoc)];
    }

    /** The database answers a write of document `id` with documentUpdated, which
        reaches documentUpdatedFeedback only while the change feed is connected. */
    method WriteAnswered(success: bool, id: string)
      modifies this`unansweredWrites, this`requests
      ensures unansweredWrites ==
        if id == VideosDoc && old(unansweredWrites) > 0 then old(unansweredWrites) - 1 else old(unansweredWrites)
      ensures requests == old(requests) +
        (if listening && id == VideosDoc && !success then [Head(UserDb(username), VideosDoc)] else [])
    {
      if id == VideosDoc && unansweredWrites > 0 {
        unansweredWrites := unansweredWrites - 1;
      }
      if listening {
        DocumentUpdatedFeedback(success, id);
      }
    }

    /** The revision of the videos document arrived: adopt it and retry the upload. On
        failure the username is passed where the document id belongs, so the retry
        chain stops unless the user is called "videos". */
    method DocumentRevisionRetrieved(success: bool, id: string, revision: string)
      modifies this`currentRevision, this`waitingForChanges, this`documentToUpload, this`requests,
        this`unansweredWrites
      ensures id != VideosDoc || !success ==>
        currentRevision == old(currentRevision) && waitingForChanges == old(waitingForChanges) &&
        documentToUpload == old(documentToUpload) && unansweredWrites == old(unansweredWrites)
      ensures id != VideosDoc ==> requests == old(requests)
      ensures id == VideosDoc && !success ==>
        requests == old(requests) + (if username == VideosDoc then [Head(UserDb(username), VideosDoc)] else [])
      ensures id == VideosDoc && success && !documentReadyForUpload ==>
        currentRevision == revision && !waitingForChanges &&
        documentToUpload == old(documentToUpload) && requests == old(requests) &&
        unansweredWrites == old(unansweredWrites)
      ensures id == VideosDoc && success && documentReadyForUpload ==>
        currentRevision == revision && waitingForChanges &&
        documentToUpload == old(documentToUpload)[RevisionKey := JString(revision)] &&
        unansweredWrites == old(unansweredWrites) + 1 &&
        requests == old(requests) + [Write(UserDb(username), VideosDoc, documentToUpload)]
    {
      if id != VideosDoc {
        return;
      }
      if !success {
        DocumentUpdatedFeedback(false, username);
        return;
      }
      currentRevision := revision;
      waitingForChanges := false;
      UploadDocument();
    }

    /** The reply to a fetch of the videos document. A failure, or no document, asks
        for the revision. A document clears the pending upload, so the upload attempted
        next writes nothing; the first one after login rebuilds the library. */
    method DocumentUpdate(success: bool, id: string, fetched: Option<Document>, nowMs: nat)
      modifies this, library, app`emitted, app`notificationsEnabled
      ensures id != VideosDoc ==> unchanged(this) && unchanged(library) && unchanged(app)
      ensures id == VideosDoc ==> !waitingForChanges && documentToUpload == old(documentToUpload)
      ensures id == VideosDoc && (!success || fetched.None?) ==>
        requests == old(requests) + [Head(UserDb(username), VideosDoc)] &&
        documentReadyForUpload == old(documentReadyForUpload) && videosDocument == old(videosDocument) &&
        firstTime == old(firstTime) && updatesAnnounced == old(updatesAnnounced) &&
        unchanged(library) && unchanged(app)
      ensures id == VideosDoc && success && fetched.Some? ==>
        requests == old(requests) && !documentReadyForUpload && videosDocument == fetched.value &&
        !firstTime && updatesAnnounced == old(updatesAnnounced) + 1
      ensures id == VideosDoc && success && fetched.Some? && !old(firstTime) ==>
        unchanged(library) && unchanged(app)
      ensures id == VideosDoc && success && fetched.Some? && old(firstTime) ==>
        RebuiltFrom(fetched.value, nowMs) &&
        app.notificationsEnabled && app.emitted == old(app.emitted)
      ensures username == old(username) && password == old(password) && currentRevision == old(currentRevision) &&
        listening == old(listening)
      ensures unansweredWrites == old(unansweredWrites) && writeInFlight == old(writeInFlight)
    {
      if id != VideosDoc {
        return;
      }
      waitingForChanges := false;
      if !success || fetched.None? {
        DocumentUpdatedFeedback(false, VideosDoc);
        return;
      }
      documentReadyForUpload := false;
      videosDocument := fetched.value;
      UploadDocument();
      // documentUpdated is announced after the rebuild; nothing the rebuild does reads
      // the count or the flag, so both are updated first
      updatesAnnounced := updatesAnnounced + 1;
      if firstTime {
        firstTime := false;
        Rebuild(videosDocument, nowMs);
      }
    }

    /** At most one write is unanswered, and the in-flight flag says whether one is. */
    predicate WritesBounded()
      reads this
    {
      unansweredWrites <= 1 && (writeInFlight <==> unansweredWrites == 1)
    }

    /** The corrected upload: besides the waitingForChanges flag, which a fetch clears,
        it waits for the answer to the previous write. */
    method UploadDocumentCorrected()
      requires WritesBounded()
      modifies this`documentToUpload, this`waitingForChanges, this`requests, this`unansweredWrites,
        this`writeInFlight
      ensures WritesBounded()
      ensures old(waitingForChanges) || old(writeInFlight) || !documentReadyForUpload ==>
        documentToUpload == old(documentToUpload) && waitingForChanges == old(waitingForChanges) &&
        requests == old(requests) && unansweredWrites == old(unansweredWrites) &&
        writeInFlight == old(writeInFlight)
      ensures !old(waitingForChanges) && !old(writeInFlight) && documentReadyForUpload ==>
        documentToUpload == old(documentToUpload)[RevisionKey := JString(currentRevision)] &&
        waitingForChanges && writeInFlight && unansweredWrites == 1 &&
        requests == old(requests) + [Write(UserDb(username), VideosDoc, documentToUpload)]
    {
      if waitingForChanges || writeInFlight || !documentReadyForUpload {
        return;
      }
      documentToUpload := documentToUpload[RevisionKey := JString(currentRevision)];
      requests := requests + [Write(UserDb(username), VideosDoc, documentToUpload)];
      unansweredWrites := unansweredWrites + 1;
      waitingForChanges := true;
      writeInFlight := true;
    }

    /** updateDocument over the corrected upload. */
    method UpdateDocumentCorrected(doc: Document)
      requires WritesBounded()
      modifies this`documentToUpload, this`documentReadyForUpload, this`waitingForChanges, this`requests,
        this`unansweredWrites, this`writeInFlight
      ensures WritesBounded() && documentReadyForUpload
      ensures old(waitingForChanges) || old(writeInFlight) ==>
        documentToUpload == doc && requests == old(requests) && unansweredWrites == old(unansweredWrites)
      ensures !old(waitingForChanges) && !old(writeInFlight) ==>
        documentToUpload == doc[RevisionKey := JString(currentRevision)] && writeInFlight &&
        requests == old(requests) + [Write(UserDb(username), VideosDoc, documentToUpload)]
    {
      documentToUpload := doc;
      documentReadyForUpload := true;
      UploadDocumentCorrected();
    }

    /** The answer to a write clears the in-flight flag; the feedback is unchanged. */
    method WriteAnsweredCorrected(success: bool, id: string)
      requires WritesBounded()
      modifies this`unansweredWrites, this`writeInFlight, this`requests
      ensures WritesBounded()
      ensures id == VideosDoc ==> !writeInFlight && unansweredWrites == 0
      ensures id != VideosDoc ==> writeInFlight == old(writeInFlight) && unansweredWrites == old(unansweredWrites)
      ensures requests == old(requests) +
        (if listening && id == VideosDoc && !success then [Head(UserDb(username), VideosDoc)] else [])
    {
      if id == VideosDoc {
        writeInFlight := false;
      }
      WriteAnswered(success, id);
    }

    /** documentRevisionRetrieved over the corrected upload. */
    method DocumentRevisionRetrievedCorrected(success: bool, id: string, revision: string)
      requires WritesBounded()
      modifies this`currentRevision, this`waitingForChanges, this`documentToUpload, this`requests,
        this`unansweredWrites, this`writeInFlight
      ensures WritesBounded()
      ensures id != VideosDoc || !success ==>
        currentRevision == old(currentRevision) && waitingForChanges == old(waitingForChanges) &&
        documentToUpload == old(documentToUpload) && unansweredWrites == old(unansweredWrites)
      ensures id != VideosDoc ==> requests == old(requests)
      ensures id == VideosDoc && !success ==>
        requests == old(requests) + (if username == VideosDoc then [Head(UserDb(username), VideosDoc)] else [])
      ensures id == VideosDoc && success && (old(writeInFlight) || !documentReadyForUpload) ==>
        currentRevision == revision && !waitingForChanges &&
        documentToUpload == old(documentToUpload) && requests == old(requests) &&
        unansweredWrites == old(unansweredWrites)
      ensures id == VideosDoc && success && !old(writeInFlight) && documentReadyForUpload ==>
        currentRevision == revision && waitingForChanges && writeInFlight &&
        documentToUpload == old(documentToUpload)[RevisionKey := JString(revision)] &&
        requests == old(requests) + [Write(UserDb(username), VideosDoc, documentToUpload)]
    {
      if id != VideosDoc {
        return;
      }
      if !success {
        DocumentUpdatedFeedback(false, username);
        return;
      }
      currentRevision := revision;
      waitingForChanges := false;
      UploadDocumentCorrected();
    }

    /** The rebuild from a fetched document, with notifications off throughout: every
        key but "_id" and "_rev" becomes the favorites or a playlist with its items.
        Everything it stores is already in the document, so nothing is uploaded. */
    method Rebuild(doc: Document, nowMs: nat)
      modifies library, app`emitted, app`notificationsEnabled
      ensures RebuiltFrom(doc, nowMs)
      ensures app.notificationsEnabled && app.emitted == old(app.emitted)
    {
      app.SetNotificationsEnabled(false);
      RebuildLibrary(doc, nowMs);
      app.SetNotificationsEnabled(true);
    }

    /** The body of the rebuild, between turning notifications off and on again. */
    method RebuildLibrary(doc: Document, nowMs: nat)
      requires !app.notificationsEnabled
      modifies library, app`emitted
      ensures RebuiltFrom(doc, nowMs)
      ensures app.emitted == old(app.emitted)
    {
      library.SetDocument(doc);
      var entries := SortedKeys(doc.Keys);
      var i := 0;
      while i < |entries|
        invariant 0 <= i <= |entries|
        invariant library.document == doc && library.Valid()
        invariant library.favorites == if FavoritesKey in entries[..i] then FavoritesContents(doc) else map[]
        invariant NamesOf(library.playlists) == PlaylistKeys(entries[..i])
        invariant HoldContents(library.playlists, doc, nowMs)
        invariant app.emitted == old(app.emitted)
      {
        var entry := entries[i];
        InPrefixStep(entries, i, FavoritesKey);
        NotBefore(entries, i);
        PlaylistKeysStep(entries, i);
        RestoreEntry(doc, entry, nowMs);
        i := i + 1;
      }
      assert entries[..i] == entries;
      RebuiltAtEnd(doc, entries, nowMs);
    }

    /** One top-level key of the fetched document: "_id" and "_rev" are skipped,
        Favorites fills the favorites, any other key becomes a new playlist. */
    method RestoreEntry(doc: Document, entry: string, nowMs: nat)
      requires library.document == doc && library.Valid() && entry in doc
      requires entry == FavoritesKey ==> library.favorites == map[]
      requires entry !in NamesOf(library.playlists) && HoldContents(library.playlists, doc, nowMs)
      requires !app.notificationsEnabled
      modifies library, app`emitted
      ensures app.emitted == old(app.emitted)
      ensures library.document == doc && library.Valid()
      ensures library.favorites == if entry == FavoritesKey then FavoritesContents(doc) else old(library.favorites)
      ensures NamesOf(library.playlists) == old(NamesOf(library.playlists)) + (if IsPlaylistKey(entry) then [entry] else [])
      ensures HoldContents(library.playlists, doc, nowMs)
    {
      if entry == IdKey || entry == RevisionKey {
      } else if entry == FavoritesKey {
        ghost var ps := library.playlists;
        ghost var names := NamesOf(ps);
        RestoreFavorites(doc, nowMs);
        assert library.playlists == ps && NamesOf(ps) == names;
      } else {
        var names := library.PlaylistNames();
        if entry in names {
          // setDocument emptied the list and the keys are distinct: never taken
          assert false;
        } else {
          RestorePlaylistEntry(doc, entry, nowMs);
        }
      }
    }

    /** A playlist key: the new playlist joins the list, which keeps holding what the
        document gives each name. */
    method RestorePlaylistEntry(doc: Document, entry: string, nowMs: nat)
      requires library.document == doc && library.Valid() && entry in doc
      requires entry !in NamesOf(library.playlists) && HoldContents(library.playlists, doc, nowMs)
      requires !app.notificationsEnabled
      modifies library, app`emitted
      ensures app.emitted == old(app.emitted)
      ensures library.document == doc && library.Valid() && library.favorites == old(library.favorites)
      ensures NamesOf(library.playlists) == old(NamesOf(library.playlists)) + [entry]
      ensures HoldContents(library.playlists, doc, nowMs)
    {
      ghost var before := library.playlists;
      ghost var names := NamesOf(before);
      var p := RestorePlaylist(doc, entry, nowMs);
      assert NamesOf(before) == names;
      HoldContentsSnoc(before, p, doc, nowMs);
      NamesSnoc(before, p);
    }

    /** The Favorites entry: every stored favorite goes through addToFavorites, keeping
        its fields and timestamp. */
    method RestoreFavorites(doc: Document, nowMs: nat)
      requires library.document == doc && library.favorites == map[]
      requires !app.notificationsEnabled
      modifies library, app`emitted
      ensures library.document == doc && library.Valid() && library.playlists == old(library.playlists)
      ensures library.favorites == FavoritesContents(doc)
      ensures app.emitted == old(app.emitted)
    {
      var favoritesObj := ToObject(Value(doc, FavoritesKey));
      var keys := SortedKeys(favoritesObj.Keys);
      var j := 0;
      while j < |keys|
        invariant 0 <= j <= |keys|
        invariant library.document == doc && library.Valid() && library.playlists == old(library.playlists)
        invariant library.favorites == map k | k in keys[..j] :: ItemOf(k, Value(favoritesObj, k))
        invariant app.emitted == old(app.emitted)
      {
        NotBefore(keys, j);
        FavoritesPrefixStep(favoritesObj, keys, j);
        RestoreFavorite(doc, keys[j], nowMs);
        j := j + 1;
      }
      assert keys[..j] == keys;
    }

    /** One stored favorite goes back through addFavorite; it is already in the
        document, so nothing is uploaded and its stored timestamp is kept. */
    method RestoreFavorite(doc: Document, key: string, nowMs: nat)
      requires library.document == doc && library.Valid()
      requires key in Under(doc, FavoritesKey) && key !in library.favorites
      requires !app.notificationsEnabled
      modifies library, app`emitted
      ensures library.document == doc && library.Valid() && library.playlists == old(library.playlists)
      ensures library.favorites == old(library.favorites)[key := ItemOf(key, Value(ToObject(Value(doc, FavoritesKey)), key))]
      ensures app.emitted == old(app.emitted)
    {
      var itemObj := ToObject(Value(ToObject(Value(doc, FavoritesKey)), key));
      var uploads, notices := library.AddFavorite(key, ToStr(Value(itemObj, "title")), ToStr(Value(itemObj, "subtitle")),
                                                  ToStr(Value(itemObj, "thumbnail")), ToStr(Value(itemObj, "duration")),
                                                  ToStr(Value(itemObj, "timestamp")), nowMs);
      assert uploads == [];
      app.TriggerNotifications(notices);
    }

    /** A playlist entry: a new playlist takes the key as its name, joins the library,
        and receives each stored item through addItem. */
    method RestorePlaylist(doc: Document, entry: string, nowMs: nat) returns (p: Playlist)
      requires library.document == doc && entry in doc && library.Valid()
      requires entry !in NamesOf(library.playlists)
      requires !app.notificationsEnabled
      modifies library, app`emitted
      ensures library.document == doc && library.Valid() && library.favorites == old(library.favorites)
      ensures fresh(p) && library.playlists == old(library.playlists) + [p]
      ensures p.name == entry && p.Valid() && p.videoItems == PlaylistContents(doc, entry, nowMs)
      ensures app.emitted == old(app.emitted)
    {
      p := new Playlist();
      var unheard := p.SetName(entry);
      var added := library.AddPlaylist(p);
      // already a key of the document: nothing to upload
      assert added == [];
      RestoreItems(p, nowMs);
    }

    /** The items stored under a new playlist's key, each through addItem in key order. */
    method RestoreItems(p: Playlist, nowMs: nat)
      requires p in library.playlists && p.videoItems == map[] && p.Valid() && p.name in library.document
      requires !app.notificationsEnabled
      modifies p, library, app`emitted
      ensures library.document == old(library.document) && library.favorites == old(library.favorites)
      ensures library.playlists == old(library.playlists)
      ensures p.name == old(p.name) && p.Valid()
      ensures p.videoItems == PlaylistContents(library.document, p.name, nowMs)
      ensures app.emitted == old(app.emitted)
    {
      var playlistObj := ToObject(Value(library.document, p.name));
      var keys := SortedKeys(playlistObj.Keys);
      var j := 0;
      while j < |keys|
        invariant 0 <= j <= |keys|
        invariant library.document == old(library.document) && library.favorites == old(library.favorites)
        invariant library.playlists == old(library.playlists)
        invariant p.name == old(p.name) && p.Valid()
        invariant p.videoItems == map k | k in keys[..j] :: Restored(playlistObj, k, nowMs)
        invariant app.emitted == old(app.emitted)
      {
        var key := keys[j];
        NotBefore(keys, j);
        PlaylistPrefixStep(playlistObj, keys, j, nowMs);
        RestoreItem(p, playlistObj, key, nowMs);
        j := j + 1;
      }
      assert keys[..j] == keys;
    }

    /** One stored item of a playlist entry goes through addItem; the library's slot
        finds it in the document already. */
    method RestoreItem(p: Playlist, playlistObj: map<string, Json>, key: string, nowMs: nat)
      requires p in library.playlists && p.Valid() && key !in p.videoItems
      requires key in playlistObj && playlistObj == ToObject(Value(library.document, p.name))
      requires !app.notificationsEnabled
      modifies p, library, app`emitted
      ensures library.document == old(library.document) && library.favorites == old(library.favorites)
      ensures library.playlists == old(library.playlists)
      ensures p.name == old(p.name) && p.Valid()
      ensures p.videoItems == old(p.videoItems)[key := Restored(playlistObj, key, nowMs)]
      ensures app.emitted == old(app.emitted)
    {
      var itemObj := ToObject(Value(playlistObj, key));
      var signals, notices := p.AddItem(key, ToStr(Value(itemObj, "title")), ToStr(Value(itemObj, "subtitle")),
                                        ToStr(Value(itemObj, "thumbnail")), ToStr(Value(itemObj, "duration")),
                                        ToStr(Value(itemObj, "timestamp")), nowMs);
      app.TriggerNotifications(notices);
      assert forall i :: 0 <= i < |signals| ==> Echoes(library.document, p.name, signals[i]);
      var uploads, slotNotices := library.Dispatch(p, signals);
      // the slot finds the item in the document: nothing to upload
      assert uploads == [];
      app.TriggerNotifications(slotNotices);
    }

    /** Ten characters, each a decimal digit chosen at random. */
    method GenerateActivationCode() returns (code: string)
      ensures |code| == 10 && IsDigits(code)
    {
      code := "";
      while |code| < 10
        invariant |code| <= 10 && IsDigits(code)
        decreases 10 - |code|
      {
        var digit: nat :| digit < 10;
        code := code + NatToString(digit);
      }
    }
  }

  /** Logging out while listening leaves the change feed connected: the stop request
      needs the username that logout has just cleared. */
  method LogoutKeepsListening() returns (stillListening: bool)
    ensures stillListening
  {
    var library := new PlaylistsManager();
    var app := new Application.ApplicationManager();
    var user := new UserManager(library, app);
    user.Login("listener", "secret");
    user.StartListeningToChanges();
    user.Logout();
    stillListening := user.listening;
  }

  /** A fetch answered while a write is outstanding clears the waitingForChanges
      flag, so the next document is written before the first write is answered. */
  method TwoWritesOutstanding() returns (outstanding: nat)
    ensures outstanding == 2
  {
    var library := new PlaylistsManager();
    var app := new Application.ApplicationManager();
    var user := new UserManager(library, app);
    user.Login("writer", "secret");
    user.StartListeningToChanges();
    user.UpdateDocument(map[]);
    user.ChangesMade(VideosDoc, "2-b");
    user.DocumentUpdate(true, VideosDoc, Some(map[]), 0);
    user.UpdateDocument(map[]);
    outstanding := user.unansweredWrites;
  }

  /** The corrected upload holds the second document back in the same situation. */
  method CorrectedHoldsSecondWrite() returns (outstanding: nat, held: bool)
    ensures outstanding == 1 && held
  {
    var library := new PlaylistsManager();
    var app := new Application.ApplicationManager();
    var user := new UserManager(library, app);
    user.Login("writer", "secret");
    user.StartListeningToChanges();
    user.UpdateDocumentCorrected(map[]);
    user.ChangesMade(VideosDoc, "2-b");
    user.DocumentUpdate(true, VideosDoc, Some(map[]), 0);
    user.UpdateDocumentCorrected(map[]);
    outstanding := user.unansweredWrites;
    held := user.documentReadyForUpload && user.writeInFlight;
  }

  /** The corrected logout does stop the feed in the same situation. */
  method LogoutCorrectedStops() returns (stillListening: bool)
    ensures !stillListening
  {
    var library := new PlaylistsManager();
    var app := new Application.ApplicationManager();
    var user := new UserManager(library, app);
    user.Login("listener", "secret");
    user.StartListeningToChanges();
    user.LogoutCorrected();
    stillListening := user.listening;
  }
}
