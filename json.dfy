/** The JSON documents the library mirrors and the sync code uploads: a QJsonDocument
    holding an object, the QJsonObject/QJsonValue accessors the core uses, and the two
    JsonHelper edits (set a dotted path, delete a key under a top-level key). */
module JsonDoc {
  import opened Videos

  /** A JSON value; numbers, booleans and arrays never occur in the documents the core
      builds and read like null through toObject()/toString(). */
  datatype Json = JNull | JString(s: string) | JObject(fields: map<string, Json>)

  /** A document whose root is an object. */
  type Document = map<string, Json>

  /** QJsonValue::toObject(): the object, or the empty object for anything else. */
  function ToObject(v: Json): map<string, Json>
  {
    if v.JObject? then v.fields else map[]
  }

  /** QJsonValue::toString(): the string, or "" for anything else. */
  function ToStr(v: Json): string
  {
    if v.JString? then v.s else ""
  }

  /** QJsonObject::value(key): the undefined value (null here) when the key is absent. */
  function Value(obj: map<string, Json>, key: string): Json
  {
    if key in obj then obj[key] else JNull
  }

  /** Reading the nested path a.b.c. */
  function Get(doc: Document, a: string, b: string, c: string): Json
  {
    Value(ToObject(Value(ToObject(Value(doc, a)), b)), c)
  }

  /** The keys of the object found under top-level key a. */
  function Under(doc: Document, a: string): set<string>
  {
    ToObject(Value(doc, a)).Keys
  }

  /** JsonHelper::modifyValue(doc, "a.b.c", v): stores the string v at a.b.c, turning a
      missing or non-object step into an object and keeping every other member. */
  function SetPath(doc: Document, a: string, b: string, c: string, v: string): (r: Document)
    ensures r.Keys == doc.Keys + {a}
    ensures forall k :: k in doc && k != a ==> r[k] == doc[k]
    ensures Under(r, a) == Under(doc, a) + {b}
  {
    var outer := ToObject(Value(doc, a));
    var inner := ToObject(Value(outer, b));
    doc[a := JObject(outer[b := JObject(inner[c := JString(v)])])]
  }

  /** Reading back after a set: the path just written holds v, every other path reads
      as before. */
  lemma {:induction false} GetSetPath(doc: Document, a: string, b: string, c: string, v: string,
                                      a': string, b': string, c': string)
    ensures Get(SetPath(doc, a, b, c, v), a', b', c') ==
            if a' == a && b' == b && c' == c then JString(v) else Get(doc, a', b', c')
  {
    var r := SetPath(doc, a, b, c, v);
    if a' == a {
      var outer := ToObject(Value(doc, a));
      assert ToObject(Value(r, a)) == outer[b := JObject(ToObject(Value(outer, b))[c := JString(v)])];
    }
  }

  /** JsonHelper::removeKey(doc, a, key): deletes key from the object under a. */
  function RemoveKey(doc: Document, a: string, key: string): (r: Document)
    ensures r.Keys == doc.Keys + {a}
    ensures forall k :: k in doc && k != a ==> r[k] == doc[k]
    ensures Under(r, a) == Under(doc, a) - {key}
  {
    doc[a := JObject(ToObject(Value(doc, a)) - {key})]
  }

  /** The object the library stores for one item under its id. */
  function ItemJson(item: Item): Json
  {
    JObject(map["title" := JString(item.title), "subtitle" := JString(item.subTitle),
                "thumbnail" := JString(item.thumbnail), "duration" := JString(item.duration),
                "timestamp" := JString(item.timestamp)])
  }

  /** The item the sync code reads back from the object stored under `id`. */
  function ItemOf(id: string, v: Json): Item
  {
    var o := ToObject(v);
    Item(id, ToStr(Value(o, "title")), ToStr(Value(o, "subtitle")), ToStr(Value(o, "thumbnail")),
         ToStr(Value(o, "duration")), ToStr(Value(o, "timestamp")))
  }

  /** Storing an item and reading it back under its id gives the same item. */
  lemma ItemOfItemJson(item: Item)
    ensures ItemOf(item.id, ItemJson(item)) == item
  {
  }

  /** The five modifyValue calls that store an item's fields under a.<id>. */
  function PutItem(doc: Document, a: string, item: Item): Document
  {
    var d1 := SetPath(doc, a, item.id, "title", item.title);
    var d2 := SetPath(d1, a, item.id, "subtitle", item.subTitle);
    var d3 := SetPath(d2, a, item.id, "thumbnail", item.thumbnail);
    var d4 := SetPath(d3, a, item.id, "duration", item.duration);
    SetPath(d4, a, item.id, "timestamp", item.timestamp)
  }

  /** One path write below a.b when a.b already holds the object m. */
  lemma SetPathInto(base: Document, a: string, b: string, c: string, v: string,
                    outer: map<string, Json>, m: map<string, Json>)
    ensures SetPath(base[a := JObject(outer[b := JObject(m)])], a, b, c, v)
         == base[a := JObject(outer[b := JObject(m[c := JString(v)])])]
  {
    var doc := base[a := JObject(outer[b := JObject(m)])];
    assert ToObject(Value(doc, a)) == outer[b := JObject(m)];
    assert ToObject(Value(outer[b := JObject(m)], b)) == m;
    var j := JObject(outer[b := JObject(m)][b := JObject(m[c := JString(v)])]);
    assert outer[b := JObject(m)][b := JObject(m[c := JString(v)])] == outer[b := JObject(m[c := JString(v)])];
    assert doc[a := j] == base[a := j];
  }

  /** When the id is not yet under a, the five path writes amount to inserting the
      item's object under a.<id>, and nothing else changes. */
  lemma {:induction false} PutItemFresh(doc: Document, a: string, item: Item)
    requires item.id !in Under(doc, a)
    ensures PutItem(doc, a, item) == doc[a := JObject(ToObject(Value(doc, a))[item.id := ItemJson(item)])]
  {
    var outer := ToObject(Value(doc, a));
    var d1 := SetPath(doc, a, item.id, "title", item.title);
    var m1 := map["title" := JString(item.title)];
    assert ToObject(Value(outer, item.id)) == map[];
    assert d1 == doc[a := JObject(outer[item.id := JObject(m1)])];
    SetPathInto(doc, a, item.id, "subtitle", item.subTitle, outer, m1);
    var m2 := m1["subtitle" := JString(item.subTitle)];
    SetPathInto(doc, a, item.id, "thumbnail", item.thumbnail, outer, m2);
    var m3 := m2["thumbnail" := JString(item.thumbnail)];
    SetPathInto(doc, a, item.id, "duration", item.duration, outer, m3);
    var m4 := m3["duration" := JString(item.duration)];
    SetPathInto(doc, a, item.id, "timestamp", item.timestamp, outer, m4);
    var m5 := m4["timestamp" := JString(item.timestamp)];
    assert JObject(m5) == ItemJson(item);
  }

  /** The item stored by PutItem reads back through ItemOf. */
  lemma {:induction false} PutItemReadBack(doc: Document, a: string, item: Item)
    requires item.id !in Under(doc, a)
    ensures item.id in Under(PutItem(doc, a, item), a)
    ensures ItemOf(item.id, Value(ToObject(Value(PutItem(doc, a, item), a)), item.id)) == item
  {
    PutItemFresh(doc, a, item);
    var obj := ToObject(Value(doc, a))[item.id := ItemJson(item)];
    assert ToObject(Value(PutItem(doc, a, item), a)) == obj;
    assert Value(obj, item.id) == ItemJson(item);
    ItemOfItemJson(item);
  }

  /** The closed form of deleting every key of S that is present under a: the document
      is rewritten only when at least one such key is there. */
  function WithoutKeys(doc: Document, a: string, S: set<string>): (r: Document)
    ensures Under(r, a) == Under(doc, a) - S
    ensures forall k :: k in doc && k != a ==> k in r && r[k] == doc[k]
    ensures Under(doc, a) * S == {} ==> r == doc
  {
    var obj := ToObject(Value(doc, a));
    if obj.Keys * S == {} then
      assert forall x :: x in obj.Keys ==> x !in obj.Keys * S;
      assert obj.Keys - S == obj.Keys;
      doc
    else
      assert (obj - S).Keys == obj.Keys - S;
      doc[a := JObject(obj - S)]
  }

  /** One more key handled the way the removal loops handle it: removeKey when the key
      is present, nothing otherwise. */
  lemma {:induction false} WithoutKeysStep(doc: Document, a: string, S: set<string>, key: string)
    ensures (if key in Under(WithoutKeys(doc, a, S), a)
             then RemoveKey(WithoutKeys(doc, a, S), a, key)
             else WithoutKeys(doc, a, S)) == WithoutKeys(doc, a, S + {key})
  {
    var obj := ToObject(Value(doc, a));
    var d := WithoutKeys(doc, a, S);
    if key in Under(d, a) {
      assert key in obj.Keys * (S + {key});
      assert ToObject(Value(d, a)) == obj - S;
      assert (obj - S) - {key} == obj - (S + {key});
    } else if obj.Keys * S == {} {
      assert key !in obj;
      assert obj.Keys * (S + {key}) == {};
    } else {
      assert (obj - S) == obj - (S + {key});
    }
  }
}
