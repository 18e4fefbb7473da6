# beatwhale library, sync and YouTube core in Dafny

This project models the core of beatwhale, a desktop YouTube music player written
in C++/Qt. It covers four pieces of the program.

- **The music library** (`Videos`, `Playlists`, `Library`).
  - A video item is a record of six strings.
  - A playlist is a name plus a map from video id to item.
  - The playlists manager holds the favorites, the list of playlists and a JSON
    document. The document follows the changes made to the library, and the
    manager hands it over for upload after each change it records. There are two
    exceptions. A playlist renamed to a name that is already a document key keeps
    its object under the old key, with no upload (playlistsmanager.cpp:329). An
    itemsAdded batch that meets an id already stored keeps the items stored before
    it, again with no upload (playlistsmanager.cpp:368-387).
    `Library.SlotEffect` and `Library.Dispatched` state what each signal does.
- **The document sync state machine** (`Sync`).
  - These are the event handlers of the user manager that upload the videos
    document under its current revision, fetch it when the database reports a
    change, and recover from a failed write by asking for the revision.
  - The first successful fetch after login rebuilds the whole library from the
    document.
  - This part also covers logout and the activation-code generator.
- **The YouTube API manager** (`Youtube`):
  - the order and duration filters of a query;
  - the search result loop that joins the ids with commas;
  - the conversion of an ISO 8601 `PT#H#M#S` duration into `[HH:]MM:SS`;
  - the merge of the converted durations into the search items;
  - the random pick of a related video that was not suggested before;
  - the queue of youtube-dl duration runs;
  - the table from reply timers to replies.
- **Application state** (`Application`):
  - the notification gate;
  - the mouse setters;
  - the drag flag;
  - the fullscreen toggle;
  - the version check that announces an update.

Every Qt event handler runs to completion on one event loop, so each handler is one
method of a class whose fields are the C++ object's private data.

**What a handler does outside its own object.** A call into another singleton that
the handler makes is returned or recorded:
- a library operation returns the documents it passes to `updateDocument` (`uploads`),
  the texts it passes to `triggerNotification` (`notices`), and a playlist returns
  the signals it emits (`signals`);
- the sync engine and the YouTube manager append the network requests they issue to
  a `requests` log;
- the signals they emit are appended to `emitted`.

**Shared modules:**
- `Text` models the Qt string operations the core relies on.
- `StringOrder` models the `QString` order of `QMap` and `QJsonObject` keys. The
  order compares UTF-16 code units, so a character above U+FFFF sorts below one in
  U+E000..U+FFFF.
- `JsonDoc` models JSON documents as nested maps and the nested-path set and delete
  of the JSON helper.
- `Wrappers` defines `Option`.

jsonhelper.cpp is not part of this model. Its `modifyValue(doc, "a.b.c", v)` is
modelled as a nested set, which turns a missing step into an object and keeps every
other member. Its `removeKey(doc, a, key)` is modelled as deleting `key` from the
object under `a`. When `a` is missing, or holds no object, the model stores an empty
object under `a`. Every caller first checks that `key` is under `a`, so this case
never arises. Playlist names and video ids are taken to contain no '.', since both become one
segment of a dotted path (`"Favorites." + id + ".title"` at playlistsmanager.cpp:100-104);
YouTube video ids never contain one.

The current time (`QDateTime::currentMSecsSinceEpoch`) is a `nowMs` parameter of each
handler that reads it. `rand()` is a nondeterministic choice.

The header declares `addToFavorites` and `removeFromFavorites`, and the rebuild
calls `addToFavorites`, but the source file defines `addFavorite` and
`removeFavorite`. Each pair is modelled as one operation.

A successful fetch drops the pending upload. `documentReadyForUpload` is cleared
before `uploadDocument` is called (usermanager.cpp:1042-1046), so that call writes
nothing (`Sync.UserManager.DocumentUpdate`).

Logout leaves the change feed connected, because the username is cleared before
the stop request needs it; see "## Findings".

The upload checks one flag, `waitingForChanges`, which a write sets and a fetch
answer clears. A fetch can be answered while a write is still unanswered, so a
second write can follow; see "## Findings". The model counts the unanswered writes
in `unansweredWrites`, the database's side of the exchange, to state this.

## Model

| member | source | states |
|---|---|---|
| Videos.Ids | videoitem.cpp:32-36 | the ids of a list of items, position by position |
| Videos.VideoItem.constructor | videoitem.cpp:16-20 | a new item has all six fields empty |
| Videos.VideoItem.SetId | videoitem.cpp:38-42 | the id becomes x and the other five fields keep their values |
| Videos.VideoItem.SetTitle | videoitem.cpp:50-54 | the title becomes x and the other five fields keep their values |
| Videos.VideoItem.SetSubTitle | videoitem.cpp:62-66 | the subtitle becomes x and the other five fields keep their values |
| Videos.VideoItem.SetThumbnail | videoitem.cpp:74-78 | the thumbnail becomes x and the other five fields keep their values |
| Videos.VideoItem.SetDuration | videoitem.cpp:86-90 | the duration becomes x and the other five fields keep their values |
| Videos.VideoItem.SetTimestamp | videoitem.cpp:98-102 | the timestamp becomes x and the other five fields keep their values |
| Videos.MakeItem | playlist.cpp:79-85 | after construction and the six setters, each getter returns what its setter was given |
| Playlists.Stamp | playlist.cpp:77 | an empty timestamp becomes the decimal current time in milliseconds, never empty; a given one is kept |
| Playlists.Batch | playlist.cpp:108-118 | the parallel argument lists become items position by position, all with one timestamp |
| Playlists.InsertKeys | playlist.cpp:108-119 | after a batch insertion the keys are the old keys plus every listed id |
| Playlists.InsertKeeps | playlist.cpp:110 | an entry present before the batch is never replaced |
| Playlists.InsertFirstWins | playlist.cpp:108-119 | a listed id that was new gets the fields of its first occurrence in the list |
| Playlists.CreatedIds | playlist.cpp:110-122 | an id is among the created items iff it is listed and was absent before |
| Playlists.CreatedStored | playlist.cpp:119-121 | every created item comes from the list and is the entry stored under its id |
| Playlists.CreatedDistinct | playlist.cpp:110-121 | no id is created twice, even when the list repeats it |
| Playlists.InsertKeyedById | playlist.cpp:119 | insertion keeps every entry stored under its own id |
| Playlists.Playlist.constructor | playlist.cpp:29-33 | a new playlist is named "Unnamed Playlist" and holds no items |
| Playlists.Playlist.SetName | playlist.cpp:51-59 | renaming to the current name emits nothing; any other name is stored and nameChanged(new, old) is emitted; items are untouched |
| Playlists.Playlist.ContainsItem | playlist.cpp:61-65 | true iff the id is a key of the playlist |
| Playlists.Playlist.AddItem | playlist.cpp:67-95 | a present id changes and emits nothing; a new id is stored once with the given fields and a non-empty timestamp, other entries unchanged, with itemAdded, playlistChanged and one notification |
| Playlists.Playlist.AddItems | playlist.cpp:97-139 | an empty list does nothing; otherwise the map is the ordered first-wins insertion of the batch, itemsAdded carries exactly the created items, and the signals go out even when nothing was created |
| Playlists.Playlist.RemoveItem | playlist.cpp:141-160 | returns true iff the id was present; exactly that id is removed; signals and notification only on removal |
| Playlists.Playlist.RemoveItems | playlist.cpp:162-190 | every listed present id is removed and all others kept; itemsRemoved carries the whole list, absent ids included |
| Playlists.Playlist.Items | playlist.cpp:192-202 | every stored item once, in ascending id order |
| JsonDoc.SetPath | playlistsmanager.cpp:100-104 | a nested set: top-level keys gain a, other top-level members are kept, and the keys under a gain b |
| JsonDoc.GetSetPath | playlistsmanager.cpp:100-104 | after a nested set, the path written reads back as the value and every other path reads as before |
| JsonDoc.RemoveKey | playlistsmanager.cpp:133 | a nested delete: exactly key leaves the object under a and other top-level members are kept |
| JsonDoc.ItemOfItemJson | usermanager.cpp:1063-1065 | an item's stored object reads back as the same item |
| JsonDoc.PutItemFresh | playlistsmanager.cpp:96-105 | for an id not yet stored, the five field writes insert the item's object under a.<id> and change nothing else |
| JsonDoc.PutItemReadBack | playlistsmanager.cpp:100-104 | the item stored by the five field writes reads back as itself |
| JsonDoc.WithoutKeys | playlistsmanager.cpp:155-163 | deleting a set of keys under a: the keys left are the old ones minus the set, other members kept, and nothing changes when none is present |
| JsonDoc.WithoutKeysStep | playlistsmanager.cpp:157-161 | one more removal loop step (removeKey when present, nothing otherwise) gives the closed form for one more key |
| StringOrder.Units | playlist.cpp:196 | a character is one UTF-16 code unit below U+10000, outside the surrogate range, and a high-then-low surrogate pair above it |
| StringOrder.AstralBelowFullwidth | playlist.cpp:196 | U+1F600 sorts below U+FF21 in QString order although its code point is larger |
| StringOrder.UnitsInjective | playlist.cpp:196 | the code units of a character determine it, and no character's units are a proper prefix of another's |
| StringOrder.Utf16Injective | playlist.cpp:196 | distinct strings have distinct UTF-16 encodings |
| StringOrder.UnitsBelowIrreflexive | playlist.cpp:196 | no code-unit sequence is below itself |
| StringOrder.UnitsBelowTransitive | playlist.cpp:196 | code-unit order is transitive |
| StringOrder.UnitsBelowTotal | playlist.cpp:196 | two distinct code-unit sequences are ordered one way or the other |
| StringOrder.BelowIrreflexive | playlist.cpp:196 | no string is below itself in QString order |
| StringOrder.BelowTransitive | playlist.cpp:196 | QString order is transitive |
| StringOrder.BelowTotal | playlist.cpp:196 | two distinct strings are ordered one way or the other |
| StringOrder.BelowAsymmetric | playlist.cpp:196 | QString order is asymmetric |
| StringOrder.StrictlySortedDistinct | playlist.cpp:196 | a key-ordered list has no repetitions |
| StringOrder.StrictlySortedUnique | usermanager.cpp:1053 | two strictly sorted lists with the same elements are equal, so the key order of a set is unique |
| StringOrder.LeastOf | playlist.cpp:196 | the least key of a non-empty set |
| StringOrder.SortedKeys | usermanager.cpp:1053 | QJsonObject::keys(): every key once, in ascending QString (UTF-16 code unit) order |
| Text.IndexOf | youtubeapimanager.cpp:333 | QString::indexOf: the first position of the character, or -1 exactly when it is absent |
| Text.Left | youtubeapimanager.cpp:333 | QString::left: the first n characters, or the whole string when n is negative or too large |
| Text.RemoveFront | youtubeapimanager.cpp:335 | QString::remove(0, n): the first n characters dropped, nothing for n <= 0, everything for n past the end |
| Text.RemoveAll | youtubeapimanager.cpp:717-718 | QString::remove(c): no c left, a text without c is unchanged, the length drops by the number of c, and no new characters |
| Text.RemoveAllAppend | youtubeapimanager.cpp:717-718 | removal works piecewise on a concatenation, so the other characters keep their order |
| Text.RemoveAllCount | youtubeapimanager.cpp:717-718 | every other character occurs as often as before |
| Text.IndexOfSub | applicationmanager.cpp:177 | QByteArray::indexOf: the first position where the pattern occurs, or -1 when it occurs nowhere |
| Text.NatToString | playlist.cpp:77 | QString::number: non-empty decimal digits |
| Text.ParseNatToString | playlist.cpp:77 | the decimal text of a number reads back as the number |
| Text.NatToStringInjective | playlistsmanager.cpp:250 | distinct counters give distinct texts |
| Text.Split | applicationmanager.cpp:184-185 | QString::split keeping empty parts: at least one part, no part holds the separator, and joining the parts with it gives the text back |
| Text.SplitStep | applicationmanager.cpp:184-185 | the part before the first separator followed by the parts after it is sep-free and joins back to the text |
| Text.SplitLength | applicationmanager.cpp:184-187 | a text with k separators splits into k + 1 parts |
| Text.SplitJoin | youtubeapimanager.cpp:231-232 | joining separator-free parts and splitting again gives the parts back |
| Text.JoinCount | youtubeapimanager.cpp:231-232 | a join of n separator-free parts holds n - 1 separators |
| Text.JoinEndsWithLast | youtubeapimanager.cpp:232 | a join ends with its last part |
| Library.NamesOf | playlistsmanager.cpp:198-209 | the playlist names in list order |
| Library.IndexNamed | playlistsmanager.cpp:294-303 | the position of the first playlist with that name, and -1 exactly when no playlist has it |
| Library.Without | playlistsmanager.cpp:287 | QList::removeAll: the playlist no longer occurs, and every other playlist is kept and nothing new appears |
| Library.WithoutAppend | playlistsmanager.cpp:287 | removal works piecewise on a concatenation, so the remaining playlists keep their order |
| Library.WithoutCons | playlistsmanager.cpp:287 | the first playlist is dropped iff it is the one removed, and the rest is handled the same way |
| Library.WithoutAbsent | playlistsmanager.cpp:287 | removing a playlist that is not listed leaves the list unchanged |
| Library.HoldingNamesMembers | playlistsmanager.cpp:305-320 | a name is listed iff a playlist of that name other than the excluded one holds the id |
| Library.CandidateDistinct | playlistsmanager.cpp:247-252 | the names "base n" tried by createPlaylist are pairwise distinct |
| Library.TriedCount | playlistsmanager.cpp:247-252 | each new candidate is untried, so n - 1 names were tried before the n-th (the loop ends on a finite document) |
| Library.Renamed | playlistsmanager.cpp:329-344 | the new key holds the old key's object, stored as the string "null" when that object is empty and as the object otherwise; the old key is gone, every other key is kept |
| Library.PutAllKeeps | playlistsmanager.cpp:372-385 | the items-added loop never changes an entry already in the document |
| Library.PutAllComplete | playlistsmanager.cpp:368-387 | a batch of distinct new ids reaches the upload and every item reads back from the document |
| Library.PutAllStops | playlistsmanager.cpp:376 | one id already stored stops the loop before the upload |
| Library.PlaylistsManager.constructor | playlistsmanager.cpp:39-43 | an empty document, no favorites, no playlists |
| Library.PlaylistsManager.SetDocument | playlistsmanager.cpp:65-77 | the favorites and playlists are emptied and the document replaced |
| Library.PlaylistsManager.IsFavorited | playlistsmanager.cpp:79-83 | true iff the id is a favorite |
| Library.PlaylistsManager.AddFavorite | playlistsmanager.cpp:85-123 | a present favorite changes nothing; otherwise it is stored, and only when Favorites.<id> was absent is it written with the current time as timestamp and uploaded |
| Library.PlaylistsManager.RemoveFavorite | playlistsmanager.cpp:125-148 | false for an absent id; otherwise the id leaves the favorites, and the document too when present, with an upload exactly then |
| Library.PlaylistsManager.RemoveFavorites | playlistsmanager.cpp:150-184 | every listed favorite is removed, from the document too where present, and the document is uploaded exactly once even if nothing was removed |
| Library.PlaylistsManager.FavoriteItems | playlistsmanager.cpp:186-196 | every favorite once, in ascending id order |
| Library.PlaylistsManager.PlaylistNames | playlistsmanager.cpp:198-209 | the playlist names in list order |
| Library.PlaylistsManager.PlaylistNamed | playlistsmanager.cpp:294-303 | the first playlist with that name, or none |
| Library.PlaylistsManager.ItemPlaylists | playlistsmanager.cpp:305-320 | the names of the playlists other than the excluded one that hold the id |
| Library.PlaylistsManager.AddPlaylist | playlistsmanager.cpp:211-236 | a managed name changes nothing; otherwise the playlist is appended, and a null key is added and uploaded only if the name was not a key |
| Library.PlaylistsManager.CreatePlaylist | playlistsmanager.cpp:238-271 | the new empty playlist takes the first of base, "base 2", "base 3", ... that is not a document key (checked against the document, not the names); that key is added with null and uploaded, and the playlist appended |
| Library.PlaylistsManager.DeletePlaylist | playlistsmanager.cpp:273-292 | false iff no playlist has the name; otherwise that key leaves the document, which is uploaded, and that playlist leaves the list |
| Library.PlaylistsManager.PlaylistNameChanged | playlistsmanager.cpp:322-349 | nothing when the new name is already a key; otherwise the old key's object moves to the new key and is uploaded |
| Library.PlaylistsManager.PlaylistItemAdded | playlistsmanager.cpp:351-366 | nothing when the id is already stored under the playlist; otherwise exactly that item is stored and uploaded |
| Library.PlaylistsManager.PlaylistItemsAdded | playlistsmanager.cpp:368-387 | the items are stored in order, and the loop returns without upload at the first id already stored |
| Library.PlaylistsManager.PlaylistItemRemoved | playlistsmanager.cpp:389-400 | nothing when the id is not stored under the playlist; otherwise it is removed and uploaded |
| Library.PlaylistsManager.PlaylistItemsRemoved | playlistsmanager.cpp:402-416 | every listed id under the playlist is removed and the document uploaded once |
| Library.SlotEffect | playlistsmanager.cpp:322-416 | one signal through its slot: every upload is the new document, only a rename gives a notice, an echo changes nothing, a rename onto an existing key changes nothing, and any other rename moves the object |
| Library.Dispatched | playlistsmanager.cpp:231-235 | the signals of one playlist delivered in order, with at most one upload per signal |
| Library.DispatchedStep | playlistsmanager.cpp:231-235 | one more signal adds its slot effect to the dispatch so far |
| Library.DispatchedEchoes | playlistsmanager.cpp:351-366 | signals that only echo the document change nothing and upload nothing |
| Library.PlaylistsManager.Deliver | playlistsmanager.cpp:231-235 | the document, uploads and notices after one signal are its slot effect |
| Library.PlaylistsManager.Dispatch | playlistsmanager.cpp:231-235 | signals of an unmanaged playlist go nowhere; for a managed one the document, uploads and notices are the slot effects of the signals in order; echo-only signals change nothing |
| Application.Mid | applicationmanager.cpp:182 | QByteArray::mid: the slice of that length, or the rest for a negative or overlong length |
| Application.ToInt | applicationmanager.cpp:191 | QString::toInt: a 32-bit value, the number for plain digits that fit, 0 for text that is not a number |
| Application.ExtractVersion | applicationmanager.cpp:177-182 | no version iff the reply holds no "version" |
| Application.ExtractVersionLayout | applicationmanager.cpp:179-182 | a reply laid out "...version...>V<..." yields exactly V |
| Application.SomeComponentGreaterExists | applicationmanager.cpp:189-196 | the loop finds a greater part iff some part from i on is greater than the running version's part at the same place |
| Application.ThreeParts | applicationmanager.cpp:184 | "a.b.c" with one-character parts splits into its three parts |
| Application.VersionParts | applicationmanager.cpp:13 | the running version 0.7.2 splits into 0, 7 and 2 |
| Application.AnnouncesDigits | applicationmanager.cpp:184-196 | a single-digit version a.b.c announces an update iff a > 0, b > 7 or c > 2 |
| Application.AnnouncesGreaterPart | applicationmanager.cpp:189-196 | 0.8.0 announces an update, and so does the older 0.6.9: the comparison is componentwise, not lexicographic |
| Application.AnnouncesNoGreaterPart | applicationmanager.cpp:189-196 | 0.7.2 and 0.7.1 do not announce an update |
| Application.AnnouncesNeedsThreeParts | applicationmanager.cpp:187 | a version without exactly three parts never announces an update |
| Application.AnnouncesTwoParts | applicationmanager.cpp:187 | the two-part 0.8 does not announce an update |
| Application.ApplicationManager.constructor | applicationmanager.cpp:12-22 | not fullscreen, not dragging, mouse at 0, notifications on |
| Application.ApplicationManager.TriggerNotification | applicationmanager.cpp:246-251 | the notification is emitted iff notifications are enabled |
| Application.ApplicationManager.TriggerNotifications | applicationmanager.cpp:246-251 | the texts are emitted in order iff notifications are enabled |
| Application.ApplicationManager.SetNotificationsEnabled | applicationmanager.cpp:148-152 | only the flag changes |
| Application.ApplicationManager.SetMouseX | applicationmanager.cpp:89-96 | the current value emits nothing; a new value is stored and announced |
| Application.ApplicationManager.SetMouseY | applicationmanager.cpp:104-111 | the current value emits nothing; a new value is stored and announced |
| Application.ApplicationManager.DragStarted | applicationmanager.cpp:225-234 | during a drag nothing changes and the info is kept; otherwise dragging starts with the info and is announced |
| Application.ApplicationManager.DragFinished | applicationmanager.cpp:236-244 | dragging ends and is announced only if it was under way; the info is kept |
| Application.ApplicationManager.ShowNormal | applicationmanager.cpp:199-210 | afterwards not fullscreen; not being fullscreen changes nothing |
| Application.ApplicationManager.ShowFullscreen | applicationmanager.cpp:212-223 | afterwards fullscreen, and whether the window was maximised is recorded only when entering |
| Application.ApplicationManager.CheckForUpdatesReply | applicationmanager.cpp:166-197 | the update notification is raised at most once, iff the reply's version has three parts and one is greater than 0.7.2's at the same place |
| Sync.PlaylistKeys | usermanager.cpp:1055-1057 | the keys other than "_id", "_rev" and "Favorites", order kept |
| Sync.PlaylistKeysSorted | usermanager.cpp:1053-1055 | the playlist keys keep the key order |
| Sync.RebuildReadsBack | usermanager.cpp:1059-1090 | an item the library wrote under Favorites, or under a playlist with a timestamp, comes back unchanged from the rebuild |
| Sync.FavoritesContentsAbsent | usermanager.cpp:1053-1057 | a document without Favorites rebuilds no favorites |
| Sync.UserManager.constructor | usermanager.cpp:18-28 | no credentials, no revision, nothing pending, first fetch still to come |
| Sync.UserManager.Login | usermanager.cpp:487-496 | the credentials are stored and one session request issued |
| Sync.UserManager.Logout | usermanager.cpp:525-537 | the credentials are cleared and the next fetch is a first one; the feed stays as it was, with no request |
| Sync.UserManager.LogoutCorrected | usermanager.cpp:525-537 | as Logout, but a known user's feed is stopped with one unsubscribe request |
| Sync.UserManager.StartListeningToChanges | usermanager.cpp:950-958 | listening starts with one subscription to the user's videos document |
| Sync.UserManager.StopListeningToChanges | usermanager.cpp:960-972 | an unsubscribe is issued and listening stops iff a username is known |
| Sync.UserManager.ListeningToChangesFailed | usermanager.cpp:974-984 | listening stops and the connection problem is notified iff notifications are on |
| Sync.UserManager.UploadDocument | usermanager.cpp:996-1008 | a write is issued iff the waitingForChanges flag is clear and a document is pending; it carries the current revision, sets the flag and adds one unanswered write |
| Sync.UserManager.UpdateDocument | usermanager.cpp:986-994 | the last document given wins, it is marked pending, and it is written at once iff the waitingForChanges flag is clear |
| Sync.UserManager.ChangesMade | usermanager.cpp:1010-1023 | another document changes nothing; a change to the videos document takes its revision, blocks uploads and issues one fetch |
| Sync.UserManager.DocumentUpdatedFeedback | usermanager.cpp:1101-1113 | only a failed write to the videos document issues a revision request |
| Sync.UserManager.WriteAnswered | usermanager.cpp:956 | the answer to a videos write is one fewer unanswered write, and it reaches the feedback slot only while the change feed is connected |
| Sync.UserManager.DocumentRevisionRetrieved | usermanager.cpp:1115-1136 | a revision for the videos document is adopted and the pending upload retried; a failure asks again only for a user named "videos" |
| Sync.UserManager.UploadDocumentCorrected | usermanager.cpp:996-1008 | the corrected upload writes only when neither flag is set and a document is pending, and keeps WritesBounded: at most one write unanswered, with the in-flight flag set iff one is |
| Sync.UserManager.UpdateDocumentCorrected | usermanager.cpp:986-994 | updateDocument over the corrected upload, keeping at most one write unanswered |
| Sync.UserManager.WriteAnsweredCorrected | usermanager.cpp:1101-1113 | the answer to a videos write clears the in-flight flag and leaves no write unanswered; a failed one asks for the revision only while the change feed is connected |
| Sync.UserManager.DocumentRevisionRetrievedCorrected | usermanager.cpp:1115-1136 | documentRevisionRetrieved over the corrected upload, keeping at most one write unanswered |
| Sync.UserManager.DocumentUpdate | usermanager.cpp:1025-1099 | a failed or empty fetch asks for the revision; a document clears the pending upload so the upload after it writes nothing; only the first one after login rebuilds the library, with notifications back on and none emitted |
| Sync.UserManager.Rebuild | usermanager.cpp:1050-1093 | the library is rebuilt from the document, notifications are back on and none was emitted |
| Sync.UserManager.RebuildLibrary | usermanager.cpp:1051-1092 | the document adopted, one favorite per Favorites entry, one playlist per playlist key in key order holding that key's items |
| Sync.UserManager.RestoreEntry | usermanager.cpp:1055-1091 | "_id" and "_rev" are skipped, Favorites fills the favorites, any other key adds one playlist with its contents |
| Sync.UserManager.RestorePlaylistEntry | usermanager.cpp:1068-1091 | a playlist key adds one playlist of that name holding what the document gives it |
| Sync.UserManager.RestoreFavorites | usermanager.cpp:1057-1067 | the favorites become exactly the stored ones, nothing uploaded and nothing notified |
| Sync.UserManager.RestoreFavorite | usermanager.cpp:1063-1065 | one stored favorite comes back with its stored fields and timestamp |
| Sync.UserManager.RestorePlaylist | usermanager.cpp:1076-1090 | a new playlist named after the key joins the library holding the key's items |
| Sync.UserManager.RestoreItems | usermanager.cpp:1083-1090 | the playlist holds exactly the items stored under its key |
| Sync.UserManager.RestoreItem | usermanager.cpp:1087-1089 | one stored item comes back through addItem, with an empty timestamp replaced |
| Sync.UserManager.GenerateActivationCode | usermanager.cpp:464-474 | exactly ten characters, each a decimal digit |
| Sync.LogoutKeepsListening | usermanager.cpp:525-537 | logging out while listening leaves the feed connected |
| Sync.LogoutCorrectedStops | usermanager.cpp:525-537 | the corrected logout stops the feed in the same situation |
| Sync.TwoWritesOutstanding | usermanager.cpp:996-1046 | write, change notice, successful fetch, new document: two writes are unanswered |
| Sync.CorrectedHoldsSecondWrite | usermanager.cpp:996-1046 | the same events with the corrected upload: one write is unanswered and the second document waits |
| Youtube.OrderParameter | youtubeapimanager.cpp:150-166 | relevance, date and rating map to their names and every other value to viewCount, in both directions |
| Youtube.DurationParameter | youtubeapimanager.cpp:168-184 | short, medium and long map to their names and every other value to any, in both directions |
| Youtube.Padded | youtubeapimanager.cpp:343 | the padding loop gives at least two characters |
| Youtube.PaddedZeros | youtubeapimanager.cpp:343 | the padding only puts '0's in front of the text |
| Youtube.PaddedOnce | youtubeapimanager.cpp:334 | the hours get one '0' in front only when shorter than two characters |
| Youtube.Clock | youtubeapimanager.cpp:325-327 | no clock exactly when the duration does not start with "PT" |
| Youtube.PadWithZeros | youtubeapimanager.cpp:343 | the padding loop computes the padded text |
| Youtube.ConvertDuration | youtubeapimanager.cpp:325-356 | the remove, insert and padding steps compute the clock of the duration |
| Youtube.TakeHours | youtubeapimanager.cpp:330-336 | the hours block computes the hours field and the text after the 'H' |
| Youtube.TakeMinutes | youtubeapimanager.cpp:338-345 | the minutes block computes the minutes field and the text after the 'M' |
| Youtube.TakeSeconds | youtubeapimanager.cpp:347-351 | the seconds block computes the seconds field |
| Youtube.AppendFields | youtubeapimanager.cpp:353-356 | the assembly appends each non-empty field with ':' and then the seconds |
| Youtube.ClockShape | youtubeapimanager.cpp:330-356 | the clock ends in MM:SS with both at least two characters, and an HH: part comes first iff the duration has an 'H' |
| Youtube.ClockOfFields | youtubeapimanager.cpp:325-356 | a well-formed PT[hH][mM][sS] converts to hours padded once, then minutes and seconds padded to two digits |
| Youtube.ClockOfParts | youtubeapimanager.cpp:330-356 | what follows "PT" converts field by field |
| Youtube.ClockMinutesSeconds | youtubeapimanager.cpp:325-356 | PT4M13S converts to 04:13 |
| Youtube.ClockAllFields | youtubeapimanager.cpp:325-356 | PT1H2M3S converts to 01:02:03 |
| Youtube.ClockSecondsOnly | youtubeapimanager.cpp:325-356 | PT45S converts to 00:45 |
| Youtube.ClockHoursOnly | youtubeapimanager.cpp:325-356 | PT1H converts to 01:00:00 |
| Youtube.IdsOf | youtubeapimanager.cpp:228-230 | the video ids of the results, in order |
| Youtube.CollectResults | youtubeapimanager.cpp:225-242 | one item per result in order, and the ids joined with a comma after each but the last |
| Youtube.JoinedIds | youtubeapimanager.cpp:225-242 | n comma-free ids give n - 1 commas and split back into the ids |
| Youtube.WithDuration | youtubeapimanager.cpp:358-363 | only the duration changes, and only when there is a conversion |
| Youtube.DurationOnly | youtubeapimanager.cpp:358-363 | the object read past the end of the items gets the duration and nothing else |
| Youtube.ConversionAt | youtubeapimanager.cpp:318-356 | position k of the conversions holds the k-th duration converted |
| Youtube.MergedPrefix | youtubeapimanager.cpp:318-366 | merging keeps every item and adds at most one per merged duration |
| Youtube.MergedAt | youtubeapimanager.cpp:318-366 | after the merge, an original position k holds the k-th item with the k-th conversion, other positions as before |
| Youtube.MergedTail | youtubeapimanager.cpp:358-363 | every position past the original items holds an appended item with only the k-th conversion |
| Youtube.MergedStops | youtubeapimanager.cpp:325-363 | the appending stops at the first duration at the end of the list that does not convert |
| Youtube.MergedReply | youtubeapimanager.cpp:318-366 | the whole merge: original positions updated in place, appended items after them, stopping at the first unconverted duration |
| Youtube.MergeAt | youtubeapimanager.cpp:358-363 | one removeAt and insert step is one more position of the merge |
| Youtube.MergeDurations | youtubeapimanager.cpp:318-366 | the original positions hold their items with their conversions, a conversion at the count is appended as an item of its own, and the list grows only then |
| Youtube.PickSuggestion | youtubeapimanager.cpp:462-476 | a pick is a candidate, not excluded, with a non-empty id; with one candidate or none the pick fails |
| Youtube.PickSuggestionCorrected | youtubeapimanager.cpp:462-476 | a pick is an acceptable candidate with a non-empty id, and there is one whenever an acceptable candidate exists and all of them have ids |
| Youtube.SingleCandidateFails | youtubeapimanager.cpp:462-476 | one acceptable related video and the pick as written still fails |
| Youtube.Cleaned | youtubeapimanager.cpp:717-718 | the youtube-dl output without line breaks: an output without any is unchanged, and every other character keeps its count |
| Youtube.CleanedAppend | youtubeapimanager.cpp:717-718 | cleaning works piecewise, so the kept characters stay in order |
| Youtube.WithoutReply | youtubeapimanager.cpp:797-804 | exactly the timers mapped to the reply are gone and the others keep their replies |
| Youtube.YoutubeApiManager.constructor | youtubeapimanager.cpp:61-89 | view-count order, any duration, no music filter, nothing pending |
| Youtube.YoutubeApiManager.SetMusicOnlyFilter | youtubeapimanager.cpp:126-130 | the flag is stored |
| Youtube.YoutubeApiManager.SetOrderFilter | youtubeapimanager.cpp:132-136 | the filter is stored |
| Youtube.YoutubeApiManager.SetDurationFilter | youtubeapimanager.cpp:138-142 | the filter is stored |
| Youtube.YoutubeApiManager.Track | youtubeapimanager.cpp:198-204 | a fresh reply and a fresh timer are recorded together |
| Youtube.YoutubeApiManager.RemoveTimer | youtubeapimanager.cpp:797-804 | only the timer mapped to the reply is removed, and nothing when there is none |
| Youtube.YoutubeApiManager.Search | youtubeapimanager.cpp:144-205 | the search document is cleared and one query issued with the mapped filters, under a new timer |
| Youtube.YoutubeApiManager.SearchFinished | youtubeapimanager.cpp:207-253 | the items are the results in order; with results their durations are asked for with the joined ids, without them the document is announced |
| Youtube.YoutubeApiManager.SearchVideosDurationFinished | youtubeapimanager.cpp:302-369 | the items become the merge of the reply's conversions: each original position holds its item with its conversion, at most one item is added per duration (MergedTail and MergedStops say which), and the document is announced |
| Youtube.YoutubeApiManager.ReplyError | youtubeapimanager.cpp:255-264 | the failure is announced and the reply's timer removed |
| Youtube.YoutubeApiManager.ReplyTimeout | youtubeapimanager.cpp:266-281 | a timer still guarding a reply announces the failure and is removed; a stale one does nothing |
| Youtube.YoutubeApiManager.Suggestion | youtubeapimanager.cpp:399-441 | the ids to avoid are stored and one related-video query issued with the mapped duration filter |
| Youtube.YoutubeApiManager.SuggestionFinished | youtubeapimanager.cpp:443-483 | as written: either the failure is announced, or an acceptable candidate's duration is asked for; with one related video or none the failure is announced and nothing is asked |
| Youtube.YoutubeApiManager.SuggestionFinishedCorrected | youtubeapimanager.cpp:443-483 | with the corrected pick: either the failure is announced, or an acceptable candidate's duration is asked for; with an acceptable candidate and all acceptable ones having ids, no failure |
| Youtube.YoutubeApiManager.SuggestionVideoDurationFinished | youtubeapimanager.cpp:535-598 | the first duration, converted, makes the suggestion; no item or no "PT" is a failure |
| Youtube.YoutubeApiManager.VideoDuration | youtubeapimanager.cpp:680-698 | while a run is open the id joins the end of the queue; otherwise a run starts for it |
| Youtube.YoutubeApiManager.VideoDurationFinished | youtubeapimanager.cpp:700-727 | a non-empty output is announced without line breaks, then the oldest queued id runs next (FIFO), or goes to the back while an update runs |
| Youtube.YoutubeApiManager.UpdateYoutubeDL | youtubeapimanager.cpp:729-742 | the update run is marked open, and a run is started only when none was open |
| Youtube.YoutubeApiManager.YoutubeDLUpdateFinished | youtubeapimanager.cpp:744-779 | the update run ends and success is announced |
| Youtube.YoutubeApiManager.YoutubeDLUpdateError | youtubeapimanager.cpp:781-795 | the update run ends and failure is announced |

## Left out

- Network I/O: the HTTP requests, URL building and the API key. A request is
  recorded as its parameters in the `requests` log.
- JSON decoding of replies. A YouTube reply is given as a list of records (id, title,
  thumbnail, duration), and a database reply as a flag plus an optional document.
- The `sender()` checks. Each slot is called with the reply or timer it is for.
- Reply properties, given as parameters.
- Deleting replies and timers.
- The 20-second timer interval. Only the table from timers to replies is modelled.
- The youtube-dl process I/O and the file renaming after an update. The process
  being open is a flag, and its output is a parameter.
- videoUrl and the other youtube-dl calls outside the duration queue. videoUrl
  also sets the duration process's "videoID" property (youtubeapimanager.cpp:638).
  A videoUrl call during a duration run therefore makes videoDurationSuccess report
  the id given to videoUrl (youtubeapimanager.cpp:710, 719). In the model the
  duration run's id cannot change.
- The signal connections of the update process. youtubeDLUpdateFinished and
  youtubeDLUpdateError disconnect `videoDurationFinished` instead of themselves
  (youtubeapimanager.cpp:773-774, 789-790). So each later updateYoutubeDL adds one
  more connection, and a later run's handlers run once per connection. The model
  runs each handler once per event.
- `Youtube.MergedPrefix`, `Youtube.MergeDurations` and
  `Youtube.YoutubeApiManager.SearchVideosDurationFinished`: when a reply
  duration's index is past the item count (youtubeapimanager.cpp:360-363, only
  after a skipped duration at the count), Qt's `QJsonArray::insert` asserts; the
  model keeps the items unchanged there. At the count itself the append is
  modelled.
- `Youtube.MergeDurations`: the conversions are computed before the merge
  instead of once per iteration; each conversion is pure, so the result is the
  same.
- `Text.Left`, `Text.IndexOf`, `Youtube.Padded` and `Youtube.PaddedOnce` count
  characters (Unicode scalar values), while QString's `count()`, `left()` and
  `indexOf()` count UTF-16 code units. A duration field holding a character above
  U+FFFF is measured differently (youtubeapimanager.cpp:334, 343, 350, 573, 582,
  589); YouTube's ISO 8601 durations are ASCII.
- The database manager's own replies and signal connections. Only the request and
  the reply the handler receives are modelled.
- The 5-second resubscribe timer after a broken feed.
- `Sync.UserManager.ChangesMade` and `Sync.UserManager.ListeningToChangesFailed` can be
  called at any time, while in the source they are slots that are connected only
  between startListeningToChanges and the next disconnect (usermanager.cpp:954-955,
  966-967, 978-979). The model does not require the feed to be connected for them.
- `Application.ToInt`: its contract leaves the value of signed text unspecified,
  because the version check only compares digits. Qt's skipping of surrounding
  whitespace is not modelled: such text reads as 0.
- The account flows of the user manager: email and username checks, registration,
  password reset and change, account deletion, and the login reply. These are
  database round trips with hashing, mail and settings storage.
- Window and cursor calls, QML registration and the signal wiring to QML.
- The clock and `rand()`. They become a `nowMs` parameter and a nondeterministic
  choice.
- Concurrency: none exists, since every handler runs to completion on the event
  loop.

## Findings

| source | as written | input that shows it | evidently intended | confidence | as-written member | corrected member |
|---|---|---|---|---|---|---|
| usermanager.cpp:525-537 | logout clears the username and then calls stopListeningToChanges, which issues nothing without a username | log in, start listening, log out: the change feed stays connected | stop listening while the username is still known | not executed | Sync.UserManager.Logout, Sync.LogoutKeepsListening | Sync.UserManager.LogoutCorrected, Sync.LogoutCorrectedStops |
| usermanager.cpp:996-1046 | uploadDocument checks only waitingForChanges, and a successful fetch clears that flag while a write may still be unanswered | log in, start listening to changes, update the document, a change notice for "videos", a successful fetch, update the document again: the requests after the subscription are write, fetch, write, with the first write unanswered | at most one write unanswered at a time | not executed | Sync.UserManager.UploadDocument, Sync.TwoWritesOutstanding | Sync.UserManager.UploadDocumentCorrected, Sync.UserManager.UpdateDocumentCorrected, Sync.UserManager.WriteAnsweredCorrected, Sync.UserManager.DocumentRevisionRetrievedCorrected, Sync.CorrectedHoldsSecondWrite |
| youtubeapimanager.cpp:462-476 | the pick fails whenever the candidate list is empty after taking one out, even when the one taken is acceptable | one related video with a non-excluded id: the suggestion fails | fail only when no acceptable candidate was found | not executed | Youtube.PickSuggestion, Youtube.SingleCandidateFails, Youtube.YoutubeApiManager.SuggestionFinished | Youtube.PickSuggestionCorrected, Youtube.YoutubeApiManager.SuggestionFinishedCorrected |
