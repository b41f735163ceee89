/** The ordered attribute tree every ahds document is made of: a Block is a named node holding
    an ordered sequence of (name, value) attributes, where a value is a scalar, Python's None,
    a decoded array or a nested Block. */
module Blocks {

  datatype Option<T> = None | Some(value: T)

  /** An attribute value; `Null` stands for Python's None. */
  datatype Value =
    | Null
    | Str(s: string)
    | Int(i: int)
    | Bool(b: bool)
    | Array(items: seq<int>)
    | Child(block: Block)

  datatype Attr = Attr(key: string, value: Value)

  datatype Block = Block(name: string, attrs: seq<Attr>)

  /** Block.add_attr refuses to overwrite an attribute that is already there. */
  datatype Error = DuplicateAttribute(key: string)

  datatype Result<T> = Ok(value: T) | Err(error: Error)

  /** The attribute names of a block, in insertion order. */
  function Keys(attrs: seq<Attr>): (ks: seq<string>)
    ensures |ks| == |attrs|
    ensures forall i :: 0 <= i < |attrs| ==> ks[i] == attrs[i].key
  {
    seq(|attrs|, i requires 0 <= i < |attrs| => attrs[i].key)
  }

  predicate Has(attrs: seq<Attr>, key: string)
  {
    exists i :: 0 <= i < |attrs| && attrs[i].key == key
  }

  predicate UniqueKeys(attrs: seq<Attr>)
  {
    forall i, j :: 0 <= i < j < |attrs| ==> attrs[i].key != attrs[j].key
  }

  /** `getattr(block, key)` on the block's own attributes: the value stored under `key`, or
      None when no attribute has that name. */
  function Lookup(attrs: seq<Attr>, key: string): (r: Option<Value>)
    ensures r.None? <==> !Has(attrs, key)
    ensures r.Some? ==> exists i :: 0 <= i < |attrs| && attrs[i] == Attr(key, r.value)
    decreases |attrs|
  {
    if attrs == [] then None
    else if attrs[0].key == key then Some(attrs[0].value)
    else
      var r := Lookup(attrs[1..], key);
      assert forall i :: 0 < i < |attrs| ==> attrs[i] == attrs[1..][i - 1];
      r
  }

  /** `block.add_attr(key, value)`: appends the attribute at the end, or refuses a name that is
      already present and leaves the block as it was. */
  function AddAttr(b: Block, key: string, v: Value): (r: Result<Block>)
    ensures r.Err? <==> Has(b.attrs, key)
    ensures r.Err? ==> r.error == DuplicateAttribute(key)
    ensures r.Ok? ==> r.value.name == b.name && r.value.attrs == b.attrs + [Attr(key, v)]
  {
    if Has(b.attrs, key) then Err(DuplicateAttribute(key))
    else Ok(Block(b.name, b.attrs + [Attr(key, v)]))
  }

  /** `block.add_attr(child)` with a Block argument: the child is stored under its own name. */
  function AddBlock(b: Block, child: Block): (r: Result<Block>)
    ensures r.Err? <==> Has(b.attrs, child.name)
    ensures r.Ok? ==> r.value.name == b.name && r.value.attrs == b.attrs + [Attr(child.name, Child(child))]
  {
    AddAttr(b, child.name, Child(child))
  }

  /** In a block whose names are unique, each attribute is found by its name. */
  lemma {:induction false} LookupAt(attrs: seq<Attr>, i: nat)
    requires UniqueKeys(attrs)
    requires i < |attrs|
    ensures Lookup(attrs, attrs[i].key) == Some(attrs[i].value)
    decreases |attrs|
  {
    if i > 0 {
      assert attrs[1..][i - 1] == attrs[i];
      LookupAt(attrs[1..], i - 1);
    }
  }

  /** Looking a name up after an append: an existing attribute shadows the new one, and the new
      one is found only under its own name. */
  lemma {:induction false} LookupAppend(attrs: seq<Attr>, a: Attr, key: string)
    ensures Lookup(attrs + [a], key) ==
      if Has(attrs, key) then Lookup(attrs, key)
      else if a.key == key then Some(a.value)
      else None
    decreases |attrs|
  {
    if attrs != [] {
      assert (attrs + [a])[1..] == attrs[1..] + [a];
      LookupAppend(attrs[1..], a, key);
      if attrs[0].key != key {
        assert Has(attrs, key) <==> Has(attrs[1..], key) by {
          if Has(attrs, key) {
            var i :| 0 <= i < |attrs| && attrs[i].key == key;
            assert attrs[1..][i - 1].key == key;
          }
          if Has(attrs[1..], key) {
            var i :| 0 <= i < |attrs[1..]| && attrs[1..][i].key == key;
            assert attrs[i + 1].key == key;
          }
        }
      }
    }
  }

  /** A successful add_attr extends the names by the new one, at the end, and keeps them unique. */
  lemma AddAttrKeys(b: Block, key: string, v: Value)
    requires AddAttr(b, key, v).Ok?
    ensures Keys(AddAttr(b, key, v).value.attrs) == Keys(b.attrs) + [key]
    ensures UniqueKeys(b.attrs) ==> UniqueKeys(AddAttr(b, key, v).value.attrs)
  {
    var attrs := AddAttr(b, key, v).value.attrs;
    if UniqueKeys(b.attrs) {
      forall i, j | 0 <= i < j < |attrs| ensures attrs[i].key != attrs[j].key {
        if j == |b.attrs| {
          assert b.attrs[i].key != key;
        }
      }
    }
  }

  /** After a successful add_attr the new attribute is found under its name and every other
      name finds what it found before. */
  lemma AddAttrLookup(b: Block, key: string, v: Value, other: string)
    requires AddAttr(b, key, v).Ok?
    ensures Lookup(AddAttr(b, key, v).value.attrs, key) == Some(v)
    ensures other != key ==> Lookup(AddAttr(b, key, v).value.attrs, other) == Lookup(b.attrs, other)
  {
    LookupAppend(b.attrs, Attr(key, v), key);
    LookupAppend(b.attrs, Attr(key, v), other);
  }
}
