/** PHP values as the Telegram objects layer sees them: the decoded body of an
    API response, possibly with some nested arrays already replaced by objects. */
module PhpValues {

  datatype Option<+T> = None | Some(value: T)

  /** A PHP array key: an integer or a string. */
  datatype Key = IntKey(n: int) | StrKey(s: string)

  /** The name of a concrete object class, as `new $class` uses it. */
  type ClassName = string

  /** A PHP value. `Arr` is an ordered PHP array. `Obj` is a constructed
      object: the class it was built as and the items it holds. */
  datatype Value =
    | Null
    | Bool(b: bool)
    | Int(i: int)
    | Str(s: string)
    | Arr(entries: seq<(Key, Value)>)
    | Obj(cls: ClassName, items: seq<(Key, Value)>)

  /** The ordered entries of a PHP array or of a collection's items. */
  type Entries = seq<(Key, Value)>

  /** PHP's conversion of a value to boolean, as `if ($response)` applies it:
      null, false, 0, "", "0" and the empty array are falsy; objects are truthy. */
  predicate Truthy(v: Value)
    ensures !Truthy(v) <==> v in {Null, Bool(false), Int(0), Str(""), Str("0"), Arr([])}
  {
    match v
    case Null => false
    case Bool(b) => b
    case Int(i) => i != 0
    case Str(s) => s != "" && s != "0"
    case Arr(es) => |es| > 0
    case Obj(_, _) => true
  }

  /** The entries an array or an object holds; none for a scalar. */
  function Children(v: Value): Entries {
    match v
    case Arr(es) => es
    case Obj(_, es) => es
    case _ => []
  }

  /** The number of values in a value tree; construction recurses on it. */
  function Size(v: Value): (n: nat)
    ensures n >= 1
    decreases v, 1
  {
    1 + SizeFrom(v, 0)
  }

  /** The sizes of the children Children(v)[i..], summed. */
  function SizeFrom(v: Value, i: nat): nat
    requires i <= |Children(v)|
    decreases v, 0, |Children(v)| - i
  {
    if i == |Children(v)| then 0
    else
      assert Children(v)[i] in Children(v);
      Size(Children(v)[i].1) + SizeFrom(v, i + 1)
  }

  /** The summed sizes of the values of an entry sequence. */
  function EntriesSize(es: Entries): nat {
    SizeFrom(Arr(es), 0)
  }

  /** Every value of an entry sequence is no larger than the whole sequence,
      so the values an array or an object holds are smaller than it. */
  lemma {:induction false} EntrySize(es: Entries, i: nat)
    requires i < |es|
    ensures Size(es[i].1) <= EntriesSize(es)
    ensures Size(es[i].1) < Size(Arr(es))
  {
    EntrySizeFrom(Arr(es), 0, i);
  }

  lemma {:induction false} EntrySizeFrom(v: Value, j: nat, i: nat)
    requires j <= i < |Children(v)|
    ensures Size(Children(v)[i].1) <= SizeFrom(v, j)
    decreases i - j
  {
    if j < i {
      EntrySizeFrom(v, j + 1, i);
    }
  }

  /** An object is as large as the array of its items. */
  lemma ObjSize(c: ClassName, es: Entries)
    ensures Size(Obj(c, es)) == Size(Arr(es)) == 1 + EntriesSize(es)
  {
    SameChildrenSameSize(Obj(c, es), Arr(es), 0);
  }

  lemma {:induction false} SameChildrenSameSize(v: Value, w: Value, i: nat)
    requires Children(v) == Children(w) && i <= |Children(v)|
    ensures SizeFrom(v, i) == SizeFrom(w, i)
    decreases |Children(v)| - i
  {
    if i < |Children(v)| {
      SameChildrenSameSize(v, w, i + 1);
    }
  }
}
