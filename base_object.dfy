/** The abstract base of every Telegram Bot API object: it unwraps the
    `result` of a response envelope, turns the sub-fields its class declares
    as relations into objects of the declared classes, and offers plain and
    `get<Field>()` accessors over the items. */
module Objects {
  import opened PhpValues
  import opened PhpArrays
  import opened Support

  /** PHP array keys are unique, so a relations table names each field once. */
  predicate UniqueKeys(t: seq<(Key, ClassName)>) {
    forall a, b :: 0 <= a < b < |t| ==> t[a].0 != t[b].0
  }

  type RelationTable = t: seq<(Key, ClassName)> | UniqueKeys(t) witness []

  /** What a class's `relations()` returns: an array from field name to class
      name, or something that is not an array. */
  datatype Relations = Table(pairs: RelationTable) | NonArray

  /** The `relations()` of every concrete class. */
  type Schema = ClassName -> Relations

  /** The items of an object of class c constructed from data: the collection
      built from `getRawResult(data)`, after `mapRelatives()`. */
  function Construct(sc: Schema, c: ClassName, data: Value): (r: Entries)
    ensures Keys(r) == Keys(FromValue(BaseObject.GetRawResult(data)))
    decreases Size(data), 5
  {
    MappedRelatives(sc, sc(c), FromValue(BaseObject.GetRawResult(data)))
  }

  /** The items after `mapRelatives()` with relations rels, from items es. */
  function MappedRelatives(sc: Schema, rels: Relations, es: Entries): (r: Entries)
    ensures Keys(r) == Keys(es)
    decreases EntriesSize(es), 4
  {
    match rels
    case NonArray => es
    case Table(t) => if |t| == 0 then es else MapEntries(sc, t, es)
  }

  /** Every top-level entry keeps its key; its value goes through MapEntry. */
  function MapEntries(sc: Schema, t: seq<(Key, ClassName)>, es: Entries): Entries
    decreases EntriesSize(es), 3
  {
    seq(|es|, i requires 0 <= i < |es| => EntrySize(es, i); (es[i].0, MapEntry(sc, t, es[i].1)))
  }

  /** A top-level value after the relation pass: an array has its related
      sub-fields wrapped; an object is skipped, and nothing is set in a scalar. */
  function MapEntry(sc: Schema, t: seq<(Key, ClassName)>, v: Value): Value
    decreases Size(v), 2
  {
    match v
    case Arr(sub) => Arr(WrapFields(sc, t, sub))
    case _ => v
  }

  function WrapFields(sc: Schema, t: seq<(Key, ClassName)>, sub: Entries): Entries
    decreases Size(Arr(sub)), 1
  {
    seq(|sub|, n requires 0 <= n < |sub| => WrapField(sc, t, sub, n))
  }

  /** The n-th sub-entry after the relation pass. It is replaced by an object
      of the declared class, built from its raw value, when its key is
      declared in t, it is the entry PHP holds for that key and it is set. */
  function WrapField(sc: Schema, t: seq<(Key, ClassName)>, sub: Entries, n: nat): (Key, Value)
    requires n < |sub|
    decreases Size(Arr(sub)), 0
  {
    var (k, x) := sub[n];
    match Lookup(t, k)
    case Some(c) =>
      if IndexOf(sub, k) == n && x != Null then
        EntrySize(sub, n);
        (k, Obj(c, Construct(sc, c, x)))
      else sub[n]
    case None => sub[n]
  }

  /** What the dynamic accessor does: returns a value or raises
      TelegramUndefinedPropertyException. */
  datatype CallResult = Returned(value: Value) | UndefinedProperty

  /** `substr($name, 0, 3) === 'get'`. */
  predicate HasGetPrefix(name: string)
    ensures HasGetPrefix(name) <==> "get" <= name
  {
    |name| >= 3 && name[..3] == "get"
  }

  class BaseObject {
    /** The relations() of every class, fixed for the program. */
    const schema: Schema
    /** The concrete class of this object. */
    const cls: ClassName
    /** The collection's items. */
    var items: Entries

    /** `new static($data)`: the items are the collection built from the raw
        result of data; then the relation pass runs. */
    constructor (schema: Schema, cls: ClassName, data: Value)
      ensures this.schema == schema && this.cls == cls
      ensures items == Construct(schema, cls, data)
      decreases Size(data), 2
    {
      this.schema := schema;
      this.cls := cls;
      items := FromValue(GetRawResult(data));
      new;
      var mapped := MapRelatives();
    }

    /** `relations()` of this object's class. */
    function DeclaredRelations(): Relations {
      schema(cls)
    }

    /** `getRawResult($data)`: the value under "result" when data holds that
        key, and data itself otherwise. */
    static function GetRawResult(data: Value): (r: Value)
      ensures Size(r) <= Size(data)
      ensures (data.Arr? || data.Obj?) && Lookup(Children(data), StrKey("result")).Some? ==>
                r == Lookup(Children(data), StrKey("result")).value
      ensures !((data.Arr? || data.Obj?) && Lookup(Children(data), StrKey("result")).Some?) ==> r == data
    {
      ArrayGet(data, StrKey("result"), data)
    }

    /** `get($key, $default = null)`. */
    function Get(key: Key, default: Value := Null): (r: Value)
      reads this
      ensures Lookup(items, key) == None ==> r == default
      ensures Lookup(items, key).Some? && !Lookup(items, key).value.Arr? ==> r == Lookup(items, key).value
      ensures Lookup(items, key).Some? && Lookup(items, key).value.Arr? ==>
                r == Obj(cls, Construct(schema, cls, Lookup(items, key).value))
      ensures r.Arr? ==> r == default
    {
      match Lookup(items, key)
      case Some(v) => if v.Arr? then Obj(cls, Construct(schema, cls, v)) else v
      case None => default
    }

    /** `mapRelatives()`: for every top-level entry that is not an object and
        every declared relation whose field is set in it, that field is
        replaced by a new object of the declared class. Returns false without
        touching the items when the relations are empty or not an array. */
    method MapRelatives() returns (r: Value)
      modifies this
      ensures items == MappedRelatives(schema, DeclaredRelations(), old(items))
      ensures DeclaredRelations().Table? && |DeclaredRelations().pairs| > 0 ==> r == Arr(items)
      ensures !(DeclaredRelations().Table? && |DeclaredRelations().pairs| > 0) ==>
                r == Bool(false) && items == old(items)
      decreases EntriesSize(items), 1
    {
      var relations := DeclaredRelations();
      if !relations.Table? || |relations.pairs| == 0 {
        return Bool(false);
      }
      var t := relations.pairs;
      var results := items;
      var i := 0;
      // foreach ($results as $key => $data): the loop sees the entries as they
      // were before it started, which are still this.items
      while i < |items|
        invariant 0 <= i <= |items| == |results|
        invariant items == old(items)
        invariant forall n :: 0 <= n < i ==> results[n] == (items[n].0, MapEntry(schema, t, items[n].1))
        invariant forall n :: i <= n < |items| ==> results[n] == items[n]
      {
        var (key, data) := items[i];
        EntrySize(items, i);
        var mapped := MapEntryRelatives(t, data);
        results := results[i := (key, mapped)];
        i := i + 1;
      }
      assert results == MapEntries(schema, t, items);
      items := results;
      r := Arr(results);
    }

    /** The inner loop of `mapRelatives()` for the top-level entry data: for
        each declared relation, in order, whose field is set in the entry,
        that field is replaced by a new object of the declared class. */
    method MapEntryRelatives(t: RelationTable, data: Value) returns (v: Value)
      ensures v == MapEntry(schema, t, data)
      decreases Size(data), 0
    {
      MapEntryNoRelations(schema, data);
      v := data;
      var j := 0;
      while j < |t|
        invariant 0 <= j <= |t|
        invariant v == MapEntry(schema, t[..j], data)
      {
        var property, klass := t[j].0, t[j].1;
        MapEntryStep(schema, t, j, data, v);
        if !data.Obj? && IsSet(v, property) {
          var sub := v.entries;
          var idx := IndexOf(sub, property);
          var child := new BaseObject(schema, klass, sub[idx].1);
          v := Arr(sub[idx := (property, Obj(klass, child.items))]);
        }
        j := j + 1;
      }
      assert t[..|t|] == t;
    }

    /** `getRawResponse()`: the items, as an array. */
    function GetRawResponse(): (r: Value)
      reads this
      ensures r.Arr? && FromValue(r) == items
    {
      Arr(items)
    }

    /** `getStatus()`: the value stored under "ok", or false. */
    function GetStatus(): (r: Value)
      reads this
      ensures Lookup(items, StrKey("ok")).Some? ==> r == Lookup(items, StrKey("ok")).value
      ensures Lookup(items, StrKey("ok")) == None ==> r == Bool(false)
    {
      ArrayGet(Arr(items), StrKey("ok"), Bool(false))
    }

    /** `__call($name, $arguments)`: a `get<Field>` name reads the field named
        by the snake-cased rest of the name; a falsy value raises, a declared
        relation is wrapped in its class. Any other name returns false. */
    function Call(name: string): (r: CallResult)
      reads this
      ensures !HasGetPrefix(name) ==> r == Returned(Bool(false))
      ensures HasGetPrefix(name) ==>
                (r == UndefinedProperty <==> !Truthy(Get(StrKey(SnakeCase(name[3..])), Bool(false))))
    {
      if HasGetPrefix(name) then
        var property := SnakeCase(name[3..]);
        var response := Get(StrKey(property), Bool(false));
        if Truthy(response) then
          match DeclaredRelations()
          case Table(t) =>
            if Lookup(t, StrKey(property)).Some? then
              var c := Lookup(t, StrKey(property)).value;
              Returned(Obj(c, Construct(schema, c, response)))
            else Returned(response)
          case NonArray => Returned(response)
        else UndefinedProperty
      else Returned(Bool(false))
    }
  }

  lemma MapEntriesAt(sc: Schema, t: seq<(Key, ClassName)>, es: Entries, i: nat)
    requires i < |es|
    ensures |MapEntries(sc, t, es)| == |es|
    ensures MapEntries(sc, t, es)[i] == (es[i].0, MapEntry(sc, t, es[i].1))
  {
  }

  /** With no relations processed, a value is left as it is. */
  lemma MapEntryNoRelations(sc: Schema, v: Value)
    ensures MapEntry(sc, [], v) == v
  {
    if v.Arr? {
      assert WrapFields(sc, [], v.entries) == v.entries;
    }
  }

  /** One pass of the inner loop of `mapRelatives()` over the top-level value
      data, whose relations t[..j] are already processed into v: when the
      field t[j] names is set in v, it still holds its raw value (no field is
      declared twice), smaller than data, and is replaced by an object of its
      class; otherwise nothing changes. */
  lemma MapEntryStep(sc: Schema, t: RelationTable, j: nat, data: Value, v: Value)
    requires j < |t| && v == MapEntry(sc, t[..j], data)
    ensures !(!data.Obj? && IsSet(v, t[j].0)) ==> MapEntry(sc, t[..j + 1], data) == v
    ensures !data.Obj? && IsSet(v, t[j].0) ==>
              var idx := IndexOf(v.entries, t[j].0);
              && idx < |v.entries|
              && Size(v.entries[idx].1) < Size(data)
              && MapEntry(sc, t[..j + 1], data) ==
                   Arr(v.entries[idx := (t[j].0, Obj(t[j].1, Construct(sc, t[j].1, v.entries[idx].1)))])
  {
    if data.Arr? {
      WrapFieldsStep(sc, t, j, data.entries);
      var idx := IndexOf(data.entries, t[j].0);
      if idx < |data.entries| {
        EntrySize(data.entries, idx);
      }
    }
  }

  /** The relation pass keeps the keys of a sub-array, in order. */
  lemma WrapFieldsKeys(sc: Schema, t: seq<(Key, ClassName)>, sub: Entries)
    ensures |WrapFields(sc, t, sub)| == |sub|
    ensures Keys(WrapFields(sc, t, sub)) == Keys(sub)
  {
    var w := WrapFields(sc, t, sub);
    forall n | 0 <= n < |sub| ensures w[n].0 == sub[n].0 {
      assert w[n] == WrapField(sc, t, sub, n);
    }
  }

  /** Processing relation t[j] after t[..j]: the field t[j] names, when set,
      is wrapped, and nothing else changes; the field still held its raw
      value before the step. */
  lemma WrapFieldsStep(sc: Schema, t: RelationTable, j: nat, orig: Entries)
    requires j < |t|
    ensures var cur := WrapFields(sc, t[..j], orig);
            var idx := IndexOf(orig, t[j].0);
            && |cur| == |orig|
            && IndexOf(cur, t[j].0) == idx
            && (idx < |orig| ==> cur[idx] == orig[idx])
            && WrapFields(sc, t[..j + 1], orig) ==
                 if idx < |orig| && orig[idx].1 != Null
                 then cur[idx := (t[j].0, Obj(t[j].1, Construct(sc, t[j].1, orig[idx].1)))]
                 else cur
  {
    var (p, c) := t[j];
    var cur := WrapFields(sc, t[..j], orig);
    var idx := IndexOf(orig, p);
    WrapFieldsKeys(sc, t[..j], orig);
    SameKeysSameIndex(cur, orig, p);
    LookupPrefixStep(t, j);
    if idx < |orig| {
      assert cur[idx] == WrapField(sc, t[..j], orig, idx);
    }
    if idx < |orig| && orig[idx].1 != Null {
      WrapFieldsStepSet(sc, t, j, orig);
    } else {
      WrapFieldsStepUnset(sc, t, j, orig);
    }
  }

  lemma WrapFieldsStepSet(sc: Schema, t: RelationTable, j: nat, orig: Entries)
    requires j < |t|
    requires IndexOf(orig, t[j].0) < |orig| && orig[IndexOf(orig, t[j].0)].1 != Null
    ensures var idx := IndexOf(orig, t[j].0);
            WrapFields(sc, t[..j + 1], orig) ==
              WrapFields(sc, t[..j], orig)[idx := (t[j].0, Obj(t[j].1, Construct(sc, t[j].1, orig[idx].1)))]
  {
    var idx := IndexOf(orig, t[j].0);
    WrapFieldsStepAt(sc, t, j, orig);
    WrapFieldsStepOthers(sc, t, j, orig);
    UpdateAt(WrapFields(sc, t[..j + 1], orig), WrapFields(sc, t[..j], orig), idx,
             (t[j].0, Obj(t[j].1, Construct(sc, t[j].1, orig[idx].1))));
  }

  /** A sequence that differs from b only at position i, where it holds x. */
  lemma UpdateAt<T>(a: seq<T>, b: seq<T>, i: nat, x: T)
    requires |a| == |b| && i < |a| && a[i] == x
    requires forall n :: 0 <= n < |a| && n != i ==> a[n] == b[n]
    ensures a == b[i := x]
  {
  }

  /** The entry PHP holds for the key t[j], when set, becomes an object of
      class t[j].1 when relation t[j] is processed. */
  lemma WrapFieldsStepAt(sc: Schema, t: RelationTable, j: nat, orig: Entries)
    requires j < |t|
    requires IndexOf(orig, t[j].0) < |orig| && orig[IndexOf(orig, t[j].0)].1 != Null
    ensures var idx := IndexOf(orig, t[j].0);
            WrapFields(sc, t[..j + 1], orig)[idx] == (t[j].0, Obj(t[j].1, Construct(sc, t[j].1, orig[idx].1)))
  {
    var idx := IndexOf(orig, t[j].0);
    LookupPrefixStep(t, j);
    assert WrapFields(sc, t[..j + 1], orig)[idx] == WrapField(sc, t[..j + 1], orig, idx);
  }

  /** Every other entry is the same before and after processing t[j]. */
  lemma WrapFieldsStepOthers(sc: Schema, t: RelationTable, j: nat, orig: Entries)
    requires j < |t|
    ensures forall n :: 0 <= n < |orig| && n != IndexOf(orig, t[j].0) ==>
              WrapFields(sc, t[..j + 1], orig)[n] == WrapFields(sc, t[..j], orig)[n]
  {
    var cur := WrapFields(sc, t[..j], orig);
    var next := WrapFields(sc, t[..j + 1], orig);
    forall n | 0 <= n < |orig| && n != IndexOf(orig, t[j].0) ensures next[n] == cur[n] {
      assert next[n] == WrapField(sc, t[..j + 1], orig, n);
      assert cur[n] == WrapField(sc, t[..j], orig, n);
      WrapFieldOther(sc, t, j, orig, n);
    }
  }

  /** A sub-entry other than the one PHP holds for the key t[j] is not
      touched by processing relation t[j]. */
  lemma WrapFieldOther(sc: Schema, t: RelationTable, j: nat, orig: Entries, n: nat)
    requires j < |t| && n < |orig| && n != IndexOf(orig, t[j].0)
    ensures WrapField(sc, t[..j + 1], orig, n) == WrapField(sc, t[..j], orig, n)
  {
    LookupPrefixStep(t, j);
    if orig[n].0 != t[j].0 {
      assert Lookup(t[..j + 1], orig[n].0) == Lookup(t[..j], orig[n].0);
    }
  }

  lemma WrapFieldsStepUnset(sc: Schema, t: RelationTable, j: nat, orig: Entries)
    requires j < |t|
    requires !(IndexOf(orig, t[j].0) < |orig| && orig[IndexOf(orig, t[j].0)].1 != Null)
    ensures WrapFields(sc, t[..j + 1], orig) == WrapFields(sc, t[..j], orig)
  {
    var p := t[j].0;
    var cur := WrapFields(sc, t[..j], orig);
    var next := WrapFields(sc, t[..j + 1], orig);
    LookupPrefixStep(t, j);
    forall n | 0 <= n < |orig| ensures next[n] == cur[n] {
      assert next[n] == WrapField(sc, t[..j + 1], orig, n);
      assert cur[n] == WrapField(sc, t[..j], orig, n);
      if orig[n].0 != p {
        assert Lookup(t[..j + 1], orig[n].0) == Lookup(t[..j], orig[n].0);
      }
    }
  }

  /** Looking a key up in a relations table one entry longer. */
  lemma LookupPrefixStep(t: RelationTable, j: nat)
    requires j < |t|
    ensures Lookup(t[..j], t[j].0) == None
    ensures Lookup(t[..j + 1], t[j].0) == Some(t[j].1)
    ensures forall k :: k != t[j].0 ==> Lookup(t[..j + 1], k) == Lookup(t[..j], k)
  {
    IndexOfIs(t[..j], t[j].0, j);
    IndexOfIs(t[..j + 1], t[j].0, j);
    forall k | k != t[j].0 ensures Lookup(t[..j + 1], k) == Lookup(t[..j], k) {
      var i := IndexOf(t[..j], k);
      IndexOfIs(t[..j + 1], k, if i < j then i else j + 1);
    }
  }
}
