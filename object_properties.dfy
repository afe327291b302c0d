/** What construction, the relation pass and the accessors of BaseObject
    guarantee, stated over the model in module Objects. */
module ObjectProperties {
  import opened PhpValues
  import opened PhpArrays
  import opened Support
  import opened Objects

  // ---------------------------------------------------------------------
  // Construction: envelope unwrap, then the relation pass

  /** A payload holding "result" is built from the value under "result". */
  lemma ConstructUnwrapsEnvelope(sc: Schema, c: ClassName, es: Entries)
    requires Lookup(es, StrKey("result")).Some?
    ensures Construct(sc, c, Arr(es)) ==
              MappedRelatives(sc, sc(c), FromValue(Lookup(es, StrKey("result")).value))
  {
  }

  /** A payload without "result" is used as it is. */
  lemma ConstructKeepsBareEntity(sc: Schema, c: ClassName, es: Entries)
    requires Lookup(es, StrKey("result")) == None
    ensures Construct(sc, c, Arr(es)) == MappedRelatives(sc, sc(c), es)
  {
  }

  /** Relations that are empty or not an array leave the items as they are. */
  lemma NoRelationsNoChange(sc: Schema, rels: Relations, es: Entries)
    requires !(rels.Table? && |rels.pairs| > 0)
    ensures MappedRelatives(sc, rels, es) == es
  {
  }

  // ---------------------------------------------------------------------
  // The relation pass changes only the declared, set sub-fields

  /** The top-level keys keep their order, and so do the sub-keys of every
      array entry. */
  lemma MappedRelativesKeys(sc: Schema, rels: Relations, es: Entries)
    ensures var r := MappedRelatives(sc, rels, es);
            && |r| == |es| && Keys(r) == Keys(es)
            && forall i :: 0 <= i < |es| && es[i].1.Arr? ==>
                 r[i].1.Arr? && Keys(r[i].1.entries) == Keys(es[i].1.entries)
  {
    var r := MappedRelatives(sc, rels, es);
    if rels.Table? && |rels.pairs| > 0 {
      assert |r| == |MapEntries(sc, rels.pairs, es)| == |es|;
      forall i | 0 <= i < |es| && es[i].1.Arr?
        ensures r[i].1.Arr? && Keys(r[i].1.entries) == Keys(es[i].1.entries)
      {
        MapEntriesAt(sc, rels.pairs, es, i);
        WrapFieldsKeys(sc, rels.pairs, es[i].1.entries);
      }
    }
  }

  /** A top-level entry that is not an array, in particular an object that
      is already built, comes out unchanged. (An object stored in a declared
      sub-field is not skipped: a second pass rebuilds it from its items.) */
  lemma MappedRelativesSkipsNonArrays(sc: Schema, rels: Relations, es: Entries, i: nat)
    requires i < |es| && !es[i].1.Arr?
    ensures |MappedRelatives(sc, rels, es)| == |es|
    ensures MappedRelatives(sc, rels, es)[i] == es[i]
  {
    if rels.Table? && |rels.pairs| > 0 {
      MapEntriesAt(sc, rels.pairs, es, i);
    }
  }

  /** A declared field that is set in an array entry becomes an object of the
      declared class, built from the field's raw value. */
  lemma MappedRelativesWrapsField(sc: Schema, t: RelationTable, es: Entries, i: nat, p: Key)
    requires i < |es| && es[i].1.Arr?
    requires Lookup(t, p).Some? && IsSet(es[i].1, p)
    ensures var r := MappedRelatives(sc, Table(t), es);
            && |r| == |es| && r[i].0 == es[i].0 && r[i].1.Arr?
            && Lookup(r[i].1.entries, p) ==
                 Some(Obj(Lookup(t, p).value, Construct(sc, Lookup(t, p).value, Lookup(es[i].1.entries, p).value)))
  {
    var sub := es[i].1.entries;
    var w := WrapFields(sc, t, sub);
    MapEntriesAt(sc, t, es, i);
    WrapFieldsKeys(sc, t, sub);
    SameKeysSameIndex(w, sub, p);
    assert w[IndexOf(sub, p)] == WrapField(sc, t, sub, IndexOf(sub, p));
  }

  /** Every other sub-field of an array entry reads as before: one that is
      not declared, and a declared one that is missing or null. */
  lemma MappedRelativesKeepsOtherFields(sc: Schema, rels: Relations, es: Entries, i: nat, k: Key)
    requires i < |es| && es[i].1.Arr?
    requires !(rels.Table? && Lookup(rels.pairs, k).Some? && IsSet(es[i].1, k))
    ensures var r := MappedRelatives(sc, rels, es);
            && |r| == |es| && r[i].0 == es[i].0 && r[i].1.Arr?
            && Lookup(r[i].1.entries, k) == Lookup(es[i].1.entries, k)
  {
    if rels.Table? && |rels.pairs| > 0 {
      var sub := es[i].1.entries;
      var w := WrapFields(sc, rels.pairs, sub);
      MapEntriesAt(sc, rels.pairs, es, i);
      WrapFieldsKeys(sc, rels.pairs, sub);
      SameKeysSameIndex(w, sub, k);
      var idx := IndexOf(sub, k);
      if idx < |sub| {
        assert w[idx] == WrapField(sc, rels.pairs, sub, idx);
      }
    }
  }

  // ---------------------------------------------------------------------
  // Rebuilding an object from its own items

  /** No array or object anywhere in v holds the key "result". */
  predicate ResultFree(v: Value)
    decreases v
  {
    match v
    case Arr(es) => Lookup(es, StrKey("result")) == None && forall e | e in es :: ResultFree(e.1)
    case Obj(_, es) => Lookup(es, StrKey("result")) == None && forall e | e in es :: ResultFree(e.1)
    case _ => true
  }

  predicate EntriesResultFree(es: Entries) {
    forall i :: 0 <= i < |es| ==> ResultFree(es[i].1)
  }

  lemma FromValueResultFree(x: Value)
    requires ResultFree(x)
    ensures Lookup(FromValue(x), StrKey("result")) == None
    ensures EntriesResultFree(FromValue(x))
  {
    if x.Arr? || x.Obj? {
      forall i | 0 <= i < |FromValue(x)| ensures ResultFree(FromValue(x)[i].1) {
        assert FromValue(x)[i] in Children(x);
      }
    }
  }

  /** Building an object of class c from the raw response of one, or from the
      object itself, gives back the same items as long as no "result" key
      occurs in the payload: `new C($o->getRawResponse())` and `new C($o)`
      equal `$o`. */
  lemma {:induction false} ConstructSettled(sc: Schema, c: ClassName, x: Value, v: Value)
    requires ResultFree(x)
    requires v == Arr(Construct(sc, c, x)) || (v.Obj? && v.items == Construct(sc, c, x))
    ensures Construct(sc, c, v) == Construct(sc, c, x)
    decreases Size(x), 2
  {
    var y := FromValue(x);
    FromValueResultFree(x);
    assert BaseObject.GetRawResult(x) == x;
    var w := Construct(sc, c, x);
    assert w == MappedRelatives(sc, sc(c), y);
    MappedRelativesKeys(sc, sc(c), y);
    assert Lookup(w, StrKey("result")) == None by {
      forall i | 0 <= i < |w| ensures w[i].0 != StrKey("result") {
        assert Keys(w)[i] == Keys(y)[i];
      }
    }
    assert BaseObject.GetRawResult(v) == v;
    assert FromValue(v) == w;
    MappedRelativesIdempotent(sc, sc(c), y);
  }

  /** Running the relation pass twice equals running it once, as long as no
      "result" key occurs in the items. */
  lemma {:induction false} MappedRelativesIdempotent(sc: Schema, rels: Relations, y: Entries)
    requires EntriesResultFree(y)
    ensures MappedRelatives(sc, rels, MappedRelatives(sc, rels, y)) == MappedRelatives(sc, rels, y)
    decreases EntriesSize(y), 1
  {
    if rels.Table? && |rels.pairs| > 0 {
      var t := rels.pairs;
      var m := MapEntries(sc, t, y);
      var mm := MapEntries(sc, t, m);
      forall i | 0 <= i < |y| ensures mm[i] == m[i] {
        MapEntriesAt(sc, t, y, i);
        MapEntriesAt(sc, t, m, i);
        if y[i].1.Arr? {
          var sub := y[i].1.entries;
          EntrySize(y, i);
          forall n | 0 <= n < |sub| ensures ResultFree(sub[n].1) {
            assert sub[n] in sub;
          }
          WrapFieldsIdempotent(sc, t, sub);
        }
      }
    }
  }

  lemma {:induction false} WrapFieldsIdempotent(sc: Schema, t: seq<(Key, ClassName)>, sub: Entries)
    requires EntriesResultFree(sub)
    ensures WrapFields(sc, t, WrapFields(sc, t, sub)) == WrapFields(sc, t, sub)
    decreases Size(Arr(sub)), 0
  {
    var w := WrapFields(sc, t, sub);
    var ww := WrapFields(sc, t, w);
    WrapFieldsKeys(sc, t, sub);
    forall n | 0 <= n < |sub| ensures ww[n] == w[n] {
      var (k, x) := sub[n];
      SameKeysSameIndex(w, sub, k);
      assert w[n] == WrapField(sc, t, sub, n);
      assert ww[n] == WrapField(sc, t, w, n);
      if Lookup(t, k).Some? && IndexOf(sub, k) == n && x != Null {
        var c := Lookup(t, k).value;
        EntrySize(sub, n);
        ConstructSettled(sc, c, x, Obj(c, Construct(sc, c, x)));
      }
    }
  }

  /** Without the side condition the rebuild can differ: a nested "result"
      is unwrapped a second time. */
  lemma RebuildUnwrapsNestedResult(sc: Schema, c: ClassName)
    requires sc(c) == NonArray
    ensures var payload := Arr([(StrKey("result"), Arr([(StrKey("result"), Int(5))]))]);
            var once := Construct(sc, c, payload);
            && once == [(StrKey("result"), Int(5))]
            && Construct(sc, c, Arr(once)) == [(IntKey(0), Int(5))]
  {
  }

  // ---------------------------------------------------------------------
  // Accessors

  /** `getStatus()` reads "ok" from the unwrapped items: an envelope whose
      result does not hold "ok" reports false, whatever its own "ok" says. */
  lemma EnvelopeStatusNotVisible(o: BaseObject, es: Entries, result: Entries)
    requires Lookup(es, StrKey("result")) == Some(Arr(result))
    requires Lookup(result, StrKey("ok")) == None
    requires o.items == Construct(o.schema, o.cls, Arr(es))
    ensures o.GetStatus() == Bool(false)
  {
    assert Keys(o.items) == Keys(result);
    forall i | 0 <= i < |o.items| ensures o.items[i].0 != StrKey("ok") {
      assert Keys(o.items)[i] == Keys(result)[i];
    }
  }

  /** `getStatus()` is truthy exactly when "ok" is present and truthy. */
  lemma StatusTruthy(o: BaseObject)
    ensures Truthy(o.GetStatus()) <==>
              Lookup(o.items, StrKey("ok")).Some? && Truthy(Lookup(o.items, StrKey("ok")).value)
  {
  }

  /** The field a `get<Name>` accessor reads. */
  function AccessorKey(name: string): Key
    requires HasGetPrefix(name)
  {
    StrKey(SnakeCase(name[3..]))
  }

  /** The dynamic accessor raises exactly for a `get` name whose field is
      missing, or holds a falsy value other than an array: a present array,
      even an empty one, comes back from `get` as an object, which is truthy. */
  lemma CallRaisesIff(o: BaseObject, name: string)
    ensures o.Call(name) == UndefinedProperty <==>
              HasGetPrefix(name) &&
              (Lookup(o.items, AccessorKey(name)) == None ||
               (!Lookup(o.items, AccessorKey(name)).value.Arr? && !Truthy(Lookup(o.items, AccessorKey(name)).value)))
  {
  }

  /** A present, truthy field with no declared relation is returned as `get`
      returns it. */
  lemma CallPlainField(o: BaseObject, name: string)
    requires HasGetPrefix(name)
    requires Truthy(o.Get(AccessorKey(name), Bool(false)))
    requires !(o.DeclaredRelations().Table? && Lookup(o.DeclaredRelations().pairs, AccessorKey(name)).Some?)
    ensures o.Call(name) == Returned(o.Get(AccessorKey(name), Bool(false)))
  {
  }

  /** A present, truthy field with a declared relation is wrapped in an
      object of the declared class, built from what `get` returns. */
  lemma CallRelationField(o: BaseObject, name: string, c: ClassName)
    requires HasGetPrefix(name)
    requires Truthy(o.Get(AccessorKey(name), Bool(false)))
    requires o.DeclaredRelations().Table? && Lookup(o.DeclaredRelations().pairs, AccessorKey(name)) == Some(c)
    ensures o.Call(name) == Returned(Obj(c, Construct(o.schema, c, o.Get(AccessorKey(name), Bool(false)))))
  {
  }

  /** For a related field that holds an array with no top-level "result"
      key, the two wrappings stack:
      `get` first builds an object of this object's own class, and the
      accessor then builds the declared class from that object's items. */
  lemma CallRelationArrayField(o: BaseObject, name: string, c: ClassName, sub: Entries)
    requires HasGetPrefix(name)
    requires Lookup(o.items, AccessorKey(name)) == Some(Arr(sub))
    requires Lookup(sub, StrKey("result")) == None
    requires o.DeclaredRelations().Table? && Lookup(o.DeclaredRelations().pairs, AccessorKey(name)) == Some(c)
    ensures o.Call(name) ==
              Returned(Obj(c, MappedRelatives(o.schema, o.schema(c), Construct(o.schema, o.cls, Arr(sub)))))
  {
    var inner := Construct(o.schema, o.cls, Arr(sub));
    forall i | 0 <= i < |inner| ensures inner[i].0 != StrKey("result") {
      assert Keys(inner)[i] == Keys(sub)[i];
    }
    assert BaseObject.GetRawResult(Obj(o.cls, inner)) == Obj(o.cls, inner);
  }

  /** `get` never hands out a raw array: a stored array comes back as an
      object of this object's class. */
  lemma GetWrapsArrays(o: BaseObject, key: Key, default: Value)
    requires Lookup(o.items, key).Some? && Lookup(o.items, key).value.Arr?
    ensures o.Get(key, default).Obj? && o.Get(key, default).cls == o.cls
    ensures Keys(o.Get(key, default).items) ==
              Keys(FromValue(BaseObject.GetRawResult(Lookup(o.items, key).value)))
  {
  }

  // ---------------------------------------------------------------------
  // Worked cases

  /** `getText()` on {"text": "hello"} returns "hello". */
  lemma TextAccessorExample(o: BaseObject)
    requires o.items == [(StrKey("text"), Str("hello"))]
    requires o.DeclaredRelations() == NonArray
    ensures o.Call("getText") == Returned(Str("hello"))
  {
    SnakeCaseExample();
  }

  /** `getFoo()` without a "foo" field raises; `get("foo", "fallback")`
      returns the fallback, and `get("foo")` returns null. */
  lemma MissingFieldExample(o: BaseObject)
    requires o.items == [(StrKey("text"), Str("hello"))]
    ensures o.Call("getFoo") == UndefinedProperty
    ensures o.Get(StrKey("foo"), Str("fallback")) == Str("fallback")
    ensures o.Get(StrKey("foo")) == Null
  {
    UnderscoredKeepsLower("oo");
    assert SnakeCase("Foo") == [ToLower('F')] + Underscored("oo");
  }

  /** A list of updates whose class relates "message" to a Message class:
      the "message" field of each update becomes a Message object. */
  lemma UpdatesListExample(sc: Schema)
    requires sc("Updates") == Table([(StrKey("message"), "Message")])
    requires sc("Message") == NonArray
    ensures var msg := Arr([(StrKey("text"), Str("hi"))]);
            var payload := Arr([(StrKey("ok"), Bool(true)),
                                (StrKey("result"), Arr([(IntKey(0), Arr([(StrKey("message"), msg)]))]))]);
            Construct(sc, "Updates", payload) ==
              [(IntKey(0), Arr([(StrKey("message"), Obj("Message", [(StrKey("text"), Str("hi"))]))]))]
  {
    var msg := Arr([(StrKey("text"), Str("hi"))]);
    var t: RelationTable := [(StrKey("message"), "Message")];
    var items := [(IntKey(0), Arr([(StrKey("message"), msg)]))];
    var envelope := [(StrKey("ok"), Bool(true)), (StrKey("result"), Arr(items))];
    assert IndexOf(envelope, StrKey("result")) == 1 by {
      assert envelope[1..] == [(StrKey("result"), Arr(items))];
    }
    assert BaseObject.GetRawResult(Arr(envelope)) == Arr(items);
    MessageFieldWrapped(sc);
    MapEntriesAt(sc, t, items, 0);
    assert MapEntries(sc, t, items) == [(IntKey(0), Arr(WrapFields(sc, t, [(StrKey("message"), msg)])))];
  }

  /** The "message" field of one update, wrapped as a Message object. */
  lemma MessageFieldWrapped(sc: Schema)
    requires sc("Message") == NonArray
    ensures var msg := Arr([(StrKey("text"), Str("hi"))]);
            WrapFields(sc, [(StrKey("message"), "Message")], [(StrKey("message"), msg)]) ==
              [(StrKey("message"), Obj("Message", [(StrKey("text"), Str("hi"))]))]
  {
    var msg := Arr([(StrKey("text"), Str("hi"))]);
    var t := [(StrKey("message"), "Message")];
    var sub := [(StrKey("message"), msg)];
    assert BaseObject.GetRawResult(msg) == msg;
    assert Construct(sc, "Message", msg) == [(StrKey("text"), Str("hi"))];
    assert WrapField(sc, t, sub, 0) == (StrKey("message"), Obj("Message", [(StrKey("text"), Str("hi"))]));
  }
}
