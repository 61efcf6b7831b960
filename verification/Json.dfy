/**
  `clojure.data.json` with its default options, as the translation between JSON trees and runtime values.
 */
module Json {

  import opened Wrappers
  import opened Words

  const TWO_63: int := TWO_64 / 2

  type i64 = x: int | -TWO_63 <= x < TWO_63

  /** What a parsed JSON number without a fraction may be: signed, or unsigned when it is not negative. */
  type integer = x: int | -TWO_63 <= x < TWO_64

  datatype Tree =
    | Null
    | Bool(b: bool)
    | Number(n: integer)
    | Float(bits: u64)
    | String(s: string)
    | Array(elements: seq<Tree>)
    | Object(members: map<string, Tree>)
    | Binary

  datatype Value =
    | Nil
    | Boolean(b: bool)
    | Integer(n: i64)
    | Real(bits: u64)
    | Text(s: string)
    | Vector(elements: seq<Value>)
    | Map(entries: map<string, Value>)
    | Unsupported

  datatype JsonError = UnsupportedType

  /** `json.get<i64>()` */
  function ToI64(n: integer): i64 {
    if n < TWO_63 then n else n - TWO_64
  }

  // ---------------------------------------------------------------------------------------------
  // The two directions
  // ---------------------------------------------------------------------------------------------

  predicate Readable(j: Tree) {
    match j
    case Array(es) => forall i :: 0 <= i < |es| ==> Readable(es[i])
    case Object(m) => forall k :: k in m ==> Readable(m[k])
    case Binary => false
    case _ => true
  }

  function Read(j: Tree): Value
    requires Readable(j)
  {
    match j
    case Null => Nil
    case Bool(b) => Boolean(b)
    case Number(n) => Integer(ToI64(n))
    case Float(bits) => Real(bits)
    case String(s) => Text(s)
    case Array(es) => Vector(seq(|es|, i requires 0 <= i < |es| => Read(es[i])))
    case Object(m) => Map(map k | k in m && Read(m[k]) != Nil :: Read(m[k]))
  }

  predicate Writable(v: Value) {
    match v
    case Vector(es) => forall i :: 0 <= i < |es| ==> Writable(es[i])
    case Map(m) => forall k :: k in m ==> Writable(m[k])
    case Unsupported => false
    case _ => true
  }

  function Write(v: Value): Tree
    requires Writable(v)
  {
    match v
    case Nil => Null
    case Boolean(b) => Bool(b)
    case Integer(n) => Number(n)
    case Real(bits) => Float(bits)
    case Text(s) => String(s)
    case Vector(es) => Array(seq(|es|, i requires 0 <= i < |es| => Write(es[i])))
    case Map(m) => ObjectOf(map k | k in m && m[k] != Nil :: Write(m[k]))
  }

  /** A JSON object starts out as null and becomes an object with its first member. */
  function ObjectOf(members: map<string, Tree>): Tree {
    if members == map[] then Null else Object(members)
  }

  /** The library's loops: the order in which a map yields its entries does not matter. */
  method ReadTree(j: Tree) returns (r: Result<Value, JsonError>)
    ensures r == if Readable(j) then Success(Read(j)) else Failure(UnsupportedType)
    decreases j
  {
    match j
    case Null => return Success(Nil);
    case Bool(b) => return Success(Boolean(b));
    case Number(n) => return Success(Integer(ToI64(n)));
    case Float(bits) => return Success(Real(bits));
    case String(s) => return Success(Text(s));
    case Binary => return Failure(UnsupportedType);
    case Array(es) =>
      var v: seq<Value> := [];
      for i := 0 to |es|
        invariant |v| == i
        invariant forall k :: 0 <= k < i ==> Readable(es[k]) && v[k] == Read(es[k])
      {
        var e := ReadTree(es[i]);
        if e.Failure? {
          return e;
        }
        v := v + [e.value];
      }
      assert v == Read(j).elements;
      return Success(Vector(v));
    case Object(m) =>
      var entries: map<string, Value> := map[];
      var keys := m.Keys;
      while keys != {}
        invariant keys <= m.Keys
        invariant forall k :: k in m && k !in keys ==> Readable(m[k])
        invariant forall k :: k in entries <==> k in m && k !in keys && Read(m[k]) != Nil
        invariant forall k :: k in entries ==> entries[k] == Read(m[k])
        decreases |keys|
      {
        var k :| k in keys;
        var value := ReadTree(m[k]);
        if value.Failure? {
          return value;
        }
        if value.value != Nil {
          entries := entries[k := value.value];
        }
        keys := keys - {k};
      }
      assert Readable(j);
      assert entries == Read(j).entries;
      return Success(Map(entries));
  }

  method WriteValue(v: Value) returns (r: Result<Tree, JsonError>)
    ensures r == if Writable(v) then Success(Write(v)) else Failure(UnsupportedType)
    decreases v
  {
    match v
    case Nil => return Success(Null);
    case Boolean(b) => return Success(Bool(b));
    case Integer(n) => return Success(Number(n));
    case Real(bits) => return Success(Float(bits));
    case Text(s) => return Success(String(s));
    case Unsupported => return Failure(UnsupportedType);
    case Vector(es) =>
      var a: seq<Tree> := [];
      for i := 0 to |es|
        invariant |a| == i
        invariant forall k :: 0 <= k < i ==> Writable(es[k]) && a[k] == Write(es[k])
      {
        var e := WriteValue(es[i]);
        if e.Failure? {
          return e;
        }
        a := a + [e.value];
      }
      assert a == Write(v).elements;
      return Success(Array(a));
    case Map(m) =>
      var tree := Null;
      var keys := m.Keys;
      while keys != {}
        invariant keys <= m.Keys
        invariant forall k :: k in m && k !in keys ==> Writable(m[k])
        invariant tree == Null || (tree.Object? && tree.members != map[])
        invariant forall k :: k in Members(tree) <==> k in m && k !in keys && m[k] != Nil
        invariant forall k :: k in Members(tree) ==> Members(tree)[k] == Write(m[k])
        decreases |keys|
      {
        var k :| k in keys;
        if m[k] != Nil {
          var value := WriteValue(m[k]);
          if value.Failure? {
            return value;
          }
          tree := Object(Members(tree)[k := value.value]);
          assert k in tree.members;
        }
        keys := keys - {k};
      }
      assert Writable(v);
      KeptIsWritten(m, tree);
      return Success(tree);
  }

  lemma KeptIsWritten(m: map<string, Value>, tree: Tree)
    requires Writable(Map(m))
    requires tree == Null || (tree.Object? && tree.members != map[])
    requires forall k :: k in Members(tree) <==> k in m && m[k] != Nil
    requires forall k :: k in Members(tree) ==> Members(tree)[k] == Write(m[k])
    ensures tree == Write(Map(m))
  {
    assert Members(tree) == map k | k in m && m[k] != Nil :: Write(m[k]);
  }

  function Members(j: Tree): map<string, Tree> {
    if j.Object? then j.members else map[]
  }

  // ---------------------------------------------------------------------------------------------
  // What is found along a path
  // ---------------------------------------------------------------------------------------------

  datatype PathStep = Index(i: nat) | Key(k: string)

  function TreeAt(j: Tree, path: seq<PathStep>): Option<Tree> {
    if path == [] then Some(j)
    else match (j, path[0])
      case (Array(es), Index(i)) => if i < |es| then TreeAt(es[i], path[1..]) else None
      case (Object(m), Key(k)) => if k in m then TreeAt(m[k], path[1..]) else None
      case _ => None
  }

  function ValueAt(v: Value, path: seq<PathStep>): Option<Value> {
    if path == [] then Some(v)
    else match (v, path[0])
      case (Vector(es), Index(i)) => if i < |es| then ValueAt(es[i], path[1..]) else None
      case (Map(m), Key(k)) => if k in m then ValueAt(m[k], path[1..]) else None
      case _ => None
  }

  predicate EndsInKey(path: seq<PathStep>) {
    path != [] && path[|path| - 1].Key?
  }

  /** Reading changes no position and no name: along every path is what was read from there, bar null members. */
  lemma {:induction false} ReadAtPath(j: Tree, path: seq<PathStep>)
    requires Readable(j)
    ensures match TreeAt(j, path)
            case None => ValueAt(Read(j), path) == None
            case Some(t) =>
              (Readable(t) && ValueAt(Read(j), path) == if EndsInKey(path) && t == Null then None else Some(Read(t)))
  {
    if path != [] {
      match (j, path[0])
      case (Array(es), Index(i)) =>
        if i < |es| {
          ReadAtPath(es[i], path[1..]);
        }
      case (Object(m), Key(k)) =>
        if k in m {
          ReadsNilOnlyFromNull(m[k]);
          ReadAtPath(m[k], path[1..]);
        }
      case _ =>
    }
  }

  /** Writing changes none, either. */
  lemma {:induction false} WriteAtPath(v: Value, path: seq<PathStep>)
    requires Writable(v)
    ensures match ValueAt(v, path)
            case None => TreeAt(Write(v), path) == None
            case Some(x) =>
              (Writable(x) && TreeAt(Write(v), path) == if EndsInKey(path) && x == Nil then None else Some(Write(x)))
  {
    if path != [] {
      match (v, path[0])
      case (Vector(es), Index(i)) =>
        if i < |es| {
          WriteAtPath(es[i], path[1..]);
        }
      case (Map(m), Key(k)) =>
        WriteOfMap(m);
        if k in m {
          WriteAtPath(m[k], path[1..]);
        }
      case _ =>
    }
  }

  /** What cannot be read has binary data somewhere, and by the above the other way round. */
  lemma {:induction false} BinaryIn(j: Tree) returns (path: seq<PathStep>)
    requires !Readable(j)
    ensures TreeAt(j, path) == Some(Binary)
  {
    match j
    case Binary =>
      path := [];
    case Array(es) =>
      var i: nat :| i < |es| && !Readable(es[i]);
      var rest := BinaryIn(es[i]);
      path := [Index(i)] + rest;
    case Object(m) =>
      var k :| k in m && !Readable(m[k]);
      var rest := BinaryIn(m[k]);
      path := [Key(k)] + rest;
  }

  lemma {:induction false} UnsupportedIn(v: Value) returns (path: seq<PathStep>)
    requires !Writable(v)
    ensures ValueAt(v, path) == Some(Unsupported)
  {
    match v
    case Unsupported =>
      path := [];
    case Vector(es) =>
      var i: nat :| i < |es| && !Writable(es[i]);
      var rest := UnsupportedIn(es[i]);
      path := [Index(i)] + rest;
    case Map(m) =>
      var k :| k in m && !Writable(m[k]);
      var rest := UnsupportedIn(m[k]);
      path := [Key(k)] + rest;
  }

  /** A tree can be read exactly when no path leads to binary data. */
  lemma ReadableIff(j: Tree)
    ensures Readable(j) <==> forall path :: TreeAt(j, path) != Some(Binary)
  {
    if Readable(j) {
      forall path ensures TreeAt(j, path) != Some(Binary) {
        ReadAtPath(j, path);
      }
    } else {
      var _ := BinaryIn(j);
    }
  }

  /** A value can be written exactly when no path leads to something unsupported. */
  lemma WritableIff(v: Value)
    ensures Writable(v) <==> forall path :: ValueAt(v, path) != Some(Unsupported)
  {
    if Writable(v) {
      forall path ensures ValueAt(v, path) != Some(Unsupported) {
        WriteAtPath(v, path);
      }
    } else {
      var _ := UnsupportedIn(v);
    }
  }

  /** A map is written as null exactly when it has no entry to write. */
  lemma WriteOfMap(m: map<string, Value>)
    requires Writable(Map(m))
    ensures Write(Map(m)) == Null <==> forall k :: k in m ==> m[k] == Nil
    ensures forall k :: k in Members(Write(Map(m))) <==> k in m && m[k] != Nil
    ensures forall k :: k in m && m[k] != Nil ==> Members(Write(Map(m)))[k] == Write(m[k])
  {
    var kept := map k | k in m && m[k] != Nil :: Write(m[k]);
    assert forall k :: k in m && m[k] != Nil ==> k in kept;
  }

  /** Scalars are read as what they are; an integer beyond the signed range comes out 2^64 less. */
  lemma ReadOfScalars(j: Tree)
    requires Readable(j)
    ensures j == Null ==> Read(j) == Nil
    ensures j.Bool? ==> Read(j) == Boolean(j.b)
    ensures j.Float? ==> Read(j) == Real(j.bits)
    ensures j.String? ==> Read(j) == Text(j.s)
    ensures j.Number? ==> Read(j).Integer? && (Read(j).n == j.n || Read(j).n == j.n - 0x1_0000_0000_0000_0000)
    ensures j.Number? && j.n < 0x8000_0000_0000_0000 ==> Read(j) == Integer(j.n)
  {}

  lemma WriteOfScalars(v: Value)
    requires Writable(v)
    ensures v == Nil ==> Write(v) == Null
    ensures v.Boolean? ==> Write(v) == Bool(v.b)
    ensures v.Integer? ==> Write(v) == Number(v.n)
    ensures v.Real? ==> Write(v) == Float(v.bits)
    ensures v.Text? ==> Write(v) == String(v.s)
  {}

  // ---------------------------------------------------------------------------------------------
  // Reading and then writing
  // ---------------------------------------------------------------------------------------------

  /** Members that are null disappear, and objects without members become null. */
  function Pruned(j: Tree): Tree {
    match j
    case Number(n) => Number(ToI64(n))
    case Array(es) => Array(seq(|es|, i requires 0 <= i < |es| => Pruned(es[i])))
    case Object(m) => ObjectOf(map k | k in m && m[k] != Null :: Pruned(m[k]))
    case _ => j
  }

  /** No null members, no empty objects, and no integers that need the unsigned range. */
  predicate Clean(j: Tree) {
    match j
    case Number(n) => n < TWO_63
    case Array(es) => forall i :: 0 <= i < |es| ==> Clean(es[i])
    case Object(m) => m != map[] && forall k :: k in m ==> m[k] != Null && Clean(m[k])
    case _ => true
  }

  lemma ReadsNilOnlyFromNull(j: Tree)
    requires Readable(j)
    ensures Read(j) == Nil <==> j == Null
  {}

  lemma {:induction false} WriteAfterRead(j: Tree)
    requires Readable(j)
    ensures Writable(Read(j)) && Write(Read(j)) == Pruned(j)
  {
    match j
    case Array(es) =>
      forall i | 0 <= i < |es|
        ensures Writable(Read(es[i])) && Write(Read(es[i])) == Pruned(es[i])
      {
        WriteAfterRead(es[i]);
      }
    case Object(m) =>
      forall k | k in m
        ensures Writable(Read(m[k])) && Write(Read(m[k])) == Pruned(m[k])
        ensures Read(m[k]) == Nil <==> m[k] == Null
      {
        WriteAfterRead(m[k]);
        ReadsNilOnlyFromNull(m[k]);
      }
      var entries := Read(j).entries;
      assert (map k | k in entries && entries[k] != Nil :: Write(entries[k]))
             == (map k | k in m && m[k] != Null :: Pruned(m[k]));
    case _ =>
  }

  lemma {:induction false} PrunedIsIdentityIffClean(j: Tree)
    ensures Pruned(j) == j <==> Clean(j)
  {
    match j
    case Array(es) =>
      forall i | 0 <= i < |es|
        ensures Pruned(es[i]) == es[i] <==> Clean(es[i])
      {
        PrunedIsIdentityIffClean(es[i]);
      }
      assert Pruned(j) == j <==> forall i :: 0 <= i < |es| ==> Pruned(es[i]) == es[i];
    case Object(m) =>
      forall k | k in m
        ensures Pruned(m[k]) == m[k] <==> Clean(m[k])
      {
        PrunedIsIdentityIffClean(m[k]);
      }
      var kept := map k | k in m && m[k] != Null :: Pruned(m[k]);
      assert kept == m <==> forall k :: k in m ==> m[k] != Null && Pruned(m[k]) == m[k];
    case _ =>
  }

  /** A document survives being read and written exactly when it is clean. */
  lemma {:induction false} WriteAfterReadIsIdentityIffClean(j: Tree)
    requires Readable(j)
    ensures Writable(Read(j)) && (Write(Read(j)) == j <==> Clean(j))
  {
    WriteAfterRead(j);
    PrunedIsIdentityIffClean(j);
  }

  /** An object that is written as null. */
  predicate Hollow(j: Tree) {
    j.Object? && forall k :: k in j.members ==> j.members[k] == Null
  }

  predicate Settles(j: Tree) {
    match j
    case Array(es) => forall i :: 0 <= i < |es| ==> Settles(es[i])
    case Object(m) => forall k :: k in m ==> !Hollow(m[k]) && Settles(m[k])
    case _ => true
  }

  lemma PrunesToNullIffHollow(j: Tree)
    ensures Pruned(j) == Null <==> j == Null || Hollow(j)
  {
    if j.Object? {
      var m := j.members;
      var kept := map k | k in m && m[k] != Null :: Pruned(m[k]);
      assert forall k :: k in m && m[k] != Null ==> k in kept;
    }
  }

  lemma {:induction false} PrunedIsCleanIffSettles(j: Tree)
    ensures Clean(Pruned(j)) <==> Settles(j)
  {
    match j
    case Array(es) =>
      forall i | 0 <= i < |es|
        ensures Clean(Pruned(es[i])) <==> Settles(es[i])
      {
        PrunedIsCleanIffSettles(es[i]);
      }
      assert forall i :: 0 <= i < |es| ==> Pruned(j).elements[i] == Pruned(es[i]);
      assert Clean(Pruned(j)) <==> forall i :: 0 <= i < |es| ==> Clean(Pruned(es[i]));
    case Object(m) =>
      forall k | k in m
        ensures Clean(Pruned(m[k])) <==> Settles(m[k])
        ensures Pruned(m[k]) == Null <==> m[k] == Null || Hollow(m[k])
      {
        PrunedIsCleanIffSettles(m[k]);
        PrunesToNullIffHollow(m[k]);
      }
      var kept := map k | k in m && m[k] != Null :: Pruned(m[k]);
      assert Pruned(j) == ObjectOf(kept);
      assert Hollow(Null) == false && Settles(Null);
      KeptIsCleanIffSettles(m, kept);
    case _ =>
  }

  lemma KeptIsCleanIffSettles(m: map<string, Tree>, kept: map<string, Tree>)
    requires forall k :: k in kept <==> k in m && m[k] != Null
    requires forall k :: k in kept ==> (Clean(kept[k]) <==> Settles(m[k])) && (kept[k] == Null <==> Hollow(m[k]))
    ensures Clean(ObjectOf(kept)) <==> Settles(Object(m))
  {
    if Clean(ObjectOf(kept)) {
      forall k | k in m
        ensures !Hollow(m[k]) && Settles(m[k])
      {
        assert m[k] != Null ==> k in kept;
      }
    } else {
      var k :| k in kept && (kept[k] == Null || !Clean(kept[k]));
    }
  }

  /**
    One round of reading and writing is as good as two exactly when no member is an object that turns into null:
    such a member is only noticed in the next round.
   */
  lemma SecondRoundIsIdentityIffSettles(j: Tree)
    ensures Pruned(Pruned(j)) == Pruned(j) <==> Settles(j)
  {
    PrunedIsIdentityIffClean(Pruned(j));
    PrunedIsCleanIffSettles(j);
  }

  // ---------------------------------------------------------------------------------------------
  // Writing and then reading
  // ---------------------------------------------------------------------------------------------

  /** Entries that are nil, or maps of nothing but nil, disappear; such maps become nil. */
  function Trimmed(v: Value): Value {
    match v
    case Vector(es) => Vector(seq(|es|, i requires 0 <= i < |es| => Trimmed(es[i])))
    case Map(m) =>
      if forall k :: k in m ==> m[k] == Nil then Nil
      else Map(map k | k in m && Trimmed(m[k]) != Nil :: Trimmed(m[k]))
    case _ => v
  }

  predicate Tidy(v: Value) {
    match v
    case Vector(es) => forall i :: 0 <= i < |es| ==> Tidy(es[i])
    case Map(m) => m != map[] && forall k :: k in m ==> m[k] != Nil && Tidy(m[k])
    case _ => true
  }

  lemma {:induction false} ReadAfterWrite(v: Value)
    requires Writable(v)
    ensures Readable(Write(v)) && Read(Write(v)) == Trimmed(v)
  {
    match v
    case Vector(es) =>
      forall i | 0 <= i < |es|
        ensures Readable(Write(es[i])) && Read(Write(es[i])) == Trimmed(es[i])
      {
        ReadAfterWrite(es[i]);
      }
    case Map(m) =>
      forall k | k in m
        ensures Readable(Write(m[k])) && Read(Write(m[k])) == Trimmed(m[k])
      {
        ReadAfterWrite(m[k]);
      }
      var kept := map k | k in m && m[k] != Nil :: Write(m[k]);
      assert Write(v) == ObjectOf(kept);
      ReadKept(m, kept);
    case _ =>
  }

  lemma ReadKept(m: map<string, Value>, kept: map<string, Tree>)
    requires forall k :: k in kept <==> k in m && m[k] != Nil
    requires forall k :: k in kept ==> Readable(kept[k]) && Read(kept[k]) == Trimmed(m[k])
    ensures Readable(ObjectOf(kept)) && Read(ObjectOf(kept)) == Trimmed(Map(m))
  {
    if k :| k in m && m[k] != Nil {
      assert k in kept;
      ReadObject(kept);
      SameEntries(m, kept);
      TrimmedMap(m, k);
    } else {
      assert kept == map[];
    }
  }

  lemma TrimmedMap(m: map<string, Value>, k: string)
    requires k in m && m[k] != Nil
    ensures Trimmed(Map(m)) == Map(map l | l in m && Trimmed(m[l]) != Nil :: Trimmed(m[l]))
  {}

  lemma ReadObject(members: map<string, Tree>)
    requires forall k :: k in members ==> Readable(members[k])
    ensures Readable(Object(members))
    ensures Read(Object(members)) == Map(map k | k in members && Read(members[k]) != Nil :: Read(members[k]))
  {}

  lemma SameEntries(m: map<string, Value>, kept: map<string, Tree>)
    requires forall k :: k in kept <==> k in m && m[k] != Nil
    requires forall k :: k in kept ==> Readable(kept[k]) && Read(kept[k]) == Trimmed(m[k])
    ensures (map k | k in kept && Read(kept[k]) != Nil :: Read(kept[k]))
            == (map k | k in m && Trimmed(m[k]) != Nil :: Trimmed(m[k]))
  {}

  lemma {:induction false} TrimmedIsIdentityIffTidy(v: Value)
    ensures Trimmed(v) == v <==> Tidy(v)
  {
    match v
    case Vector(es) =>
      forall i | 0 <= i < |es|
        ensures Trimmed(es[i]) == es[i] <==> Tidy(es[i])
      {
        TrimmedIsIdentityIffTidy(es[i]);
      }
      assert Trimmed(v) == v <==> forall i :: 0 <= i < |es| ==> Trimmed(es[i]) == es[i];
    case Map(m) =>
      forall k | k in m
        ensures Trimmed(m[k]) == m[k] <==> Tidy(m[k])
      {
        TrimmedIsIdentityIffTidy(m[k]);
      }
      var kept := map k | k in m && Trimmed(m[k]) != Nil :: Trimmed(m[k]);
      assert kept == m <==> forall k :: k in m ==> Trimmed(m[k]) != Nil && Trimmed(m[k]) == m[k];
    case _ =>
  }

  /** A value survives being written and read exactly when it is tidy. */
  lemma {:induction false} ReadAfterWriteIsIdentityIffTidy(v: Value)
    requires Writable(v)
    ensures Readable(Write(v)) && (Read(Write(v)) == v <==> Tidy(v))
  {
    ReadAfterWrite(v);
    TrimmedIsIdentityIffTidy(v);
  }
}
