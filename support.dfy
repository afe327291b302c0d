/** The Laravel helpers the objects layer calls, reduced to what it uses:
    the coercion done by the collection constructor, `array_get` with a key
    that holds no dot, and an ASCII `snake_case`. */
module Support {
  import opened PhpValues
  import opened PhpArrays

  /** The items a collection holds after `parent::__construct($items)`:
      null gives no items, an array is kept as it is, another collection
      gives its items, and any other value is cast to a one-element array. */
  function FromValue(v: Value): (es: Entries)
    ensures EntriesSize(es) <= Size(v)
    ensures v.Arr? ==> es == v.entries
    ensures v.Obj? ==> es == v.items
    ensures v.Null? ==> es == []
    ensures (v.Bool? || v.Int? || v.Str?) ==> es == [(IntKey(0), v)]
  {
    match v
    case Null => []
    case Arr(es) => es
    case Obj(c, es) => ObjSize(c, es); es
    case _ =>
      assert SizeFrom(Arr([(IntKey(0), v)]), 1) == 0;
      [(IntKey(0), v)]
  }

  /** `array_get($target, $key, $default)` for a key without a dot. An array,
      or an object (a collection is array-accessible), yields the value stored
      under the key when the key exists, even a null one; everything else
      yields the default. */
  function ArrayGet(target: Value, key: Key, default: Value): (r: Value)
    ensures (target.Arr? || target.Obj?) && Lookup(Children(target), key).Some? ==>
              r == Lookup(Children(target), key).value && Size(r) < Size(target)
    ensures !((target.Arr? || target.Obj?) && Lookup(Children(target), key).Some?) ==> r == default
  {
    match target
    case Arr(es) =>
      if Lookup(es, key).Some? then LookupSize(es, key); Lookup(es, key).value else default
    case Obj(c, es) =>
      if Lookup(es, key).Some? then LookupSize(es, key); ObjSize(c, es); Lookup(es, key).value else default
    case _ => default
  }

  predicate IsUpper(ch: char) {
    'A' <= ch <= 'Z'
  }

  function ToLower(ch: char): (r: char)
    ensures !IsUpper(r)
  {
    if IsUpper(ch) then (ch as int + 32) as char else ch
  }

  predicate NoUpper(s: string) {
    forall i :: 0 <= i < |s| ==> !IsUpper(s[i])
  }

  /** `snake_case($value)` on ASCII: a `_` goes before every upper-case letter
      that does not start the string, then every letter is lower-cased. */
  function SnakeCase(s: string): (r: string)
    ensures NoUpper(r)
    ensures |r| >= |s|
  {
    if s == [] then [] else [ToLower(s[0])] + Underscored(s[1..])
  }

  /** The part of SnakeCase after the first character: every upper-case
      letter becomes `_` and its lower-case form. */
  function Underscored(s: string): (r: string)
    ensures NoUpper(r)
    ensures |r| >= |s|
  {
    if s == [] then []
    else (if IsUpper(s[0]) then ['_', ToLower(s[0])] else [s[0]]) + Underscored(s[1..])
  }

  /** A name with no upper-case letter is already in snake case. */
  lemma {:induction false} SnakeCaseKeepsLower(s: string)
    requires NoUpper(s)
    ensures SnakeCase(s) == s
  {
    if s != [] {
      UnderscoredKeepsLower(s[1..]);
    }
  }

  lemma {:induction false} UnderscoredKeepsLower(s: string)
    requires NoUpper(s)
    ensures Underscored(s) == s
  {
    if s != [] {
      UnderscoredKeepsLower(s[1..]);
    }
  }

  /** Snake-casing twice is snake-casing once. */
  lemma SnakeCaseIdempotent(s: string)
    ensures SnakeCase(SnakeCase(s)) == SnakeCase(s)
  {
    SnakeCaseKeepsLower(SnakeCase(s));
  }

  /** The result grows by one `_` per upper-case letter after the first character. */
  lemma {:induction false} SnakeCaseLength(s: string)
    requires s != []
    ensures |SnakeCase(s)| == |s| + UpperCount(s[1..])
  {
    UnderscoredLength(s[1..]);
  }

  function UpperCount(s: string): nat {
    if s == [] then 0 else (if IsUpper(s[0]) then 1 else 0) + UpperCount(s[1..])
  }

  lemma {:induction false} UnderscoredLength(s: string)
    ensures |Underscored(s)| == |s| + UpperCount(s)
  {
    if s != [] {
      UnderscoredLength(s[1..]);
    }
  }

  /** The accessor name `getText` reads the field `text`. */
  lemma SnakeCaseExample()
    ensures SnakeCase("Text") == "text"
  {
    UnderscoredKeepsLower("ext");
    assert SnakeCase("Text") == [ToLower('T')] + Underscored("ext");
  }

  /** Two capitalised words, as in `getFirstName`, give `first_name`. */
  lemma SnakeCaseTwoWords(a: char, w1: string, b: char, w2: string)
    requires IsUpper(a) && IsUpper(b) && NoUpper(w1) && NoUpper(w2)
    ensures SnakeCase([a] + w1 + [b] + w2) == [ToLower(a)] + w1 + ['_', ToLower(b)] + w2
  {
    var s := [a] + w1 + [b] + w2;
    assert s[1..] == w1 + ([b] + w2);
    UnderscoredAppend(w1, [b] + w2);
    UnderscoredKeepsLower(w1);
    assert ([b] + w2)[1..] == w2;
    UnderscoredKeepsLower(w2);
  }

  /** Underscored works letter by letter. */
  lemma {:induction false} UnderscoredAppend(a: string, b: string)
    ensures Underscored(a + b) == Underscored(a) + Underscored(b)
  {
    if a != [] {
      assert (a + b)[1..] == a[1..] + b;
      UnderscoredAppend(a[1..], b);
    } else {
      assert a + b == b;
    }
  }
}
