/** `lib/raw-json/main.go`: a JSON object kept both as bytes and as a decoded map. */
module RawJsons {
  import opened Options

  /** `encoding/json` on objects: `unmarshal` fails on bytes that are no JSON object or null. */
  datatype Codec<!V, !B> = Codec(
    marshal: map<string, V> -> B,
    unmarshal: B -> Option<map<string, V>>)

  ghost predicate RoundTrips<V(!new), B>(codec: Codec<V, B>) {
    forall m: map<string, V> :: codec.unmarshal(codec.marshal(m)) == Some(m)
  }

  /** A Go map: a reference that several structs may share. */
  class GoMap<V> {
    var m: map<string, V>

    constructor (m: map<string, V>)
      ensures this.m == m
    {
      this.m := m;
    }

    /** Entries are written in whatever order the other map iterates. */
    method PutAll(other: map<string, V>)
      modifies this
      ensures m == old(m) + other
    {
      var todo := other.Keys;
      while todo != {}
        invariant todo <= other.Keys
        invariant m.Keys == old(m).Keys + (other.Keys - todo)
        invariant forall k :: k in m ==>
          m[k] == if k in other && k !in todo then other[k] else old(m)[k]
        decreases |todo|
      {
        var k :| k in todo;
        todo := todo - {k};
        m := m[k := other[k]];
      }
      assert m == old(m) + other;
    }
  }

  class RawJson<V(!new), B(!new)> {
    const codec: Codec<V, B>
    var items: GoMap?<V>
    var raw: Option<B>

    /** The bytes, if any, can be decoded; on others every operation panics. */
    ghost predicate Valid()
      reads this
    {
      RoundTrips(codec) && (raw.Some? ==> codec.unmarshal(raw.value).Some?)
    }

    /** The object this value stands for: the bytes win, the decoded map is only a cache. */
    function Value(): map<string, V>
      requires Valid()
      reads this, items
    {
      if raw.Some? then codec.unmarshal(raw.value).value
      else if items != null then items.m
      else map[]
    }

    /** The decoded map is written in place only when there are no bytes to refill it from. */
    function Owned(): set<object>
      reads this
    {
      if raw.None? && items != null then {items} else {}
    }

    ghost predicate Agree()
      requires Valid()
      reads this, items
    {
      items != null && items.m == Value()
    }

    /** The operations below may be used on both freely without one seeing the other's changes. */
    static ghost predicate Apart(a: RawJson<V, B>, b: RawJson<V, B>)
      reads a, b
    {
      a != b && (a.items == null || a.items != b.items || (a.raw.Some? && b.raw.Some?))
    }

    constructor (codec: Codec<V, B>, raw: Option<B>)
      ensures this.codec == codec && this.raw == raw && items == null
    {
      this.codec, this.raw, items := codec, raw, null;
    }

    method FillMap()
      requires Valid()
      modifies this
      ensures Valid() && raw == old(raw) && Agree() && Value() == old(Value())
      ensures if old(raw).Some? || old(items) == null then fresh(items) else items == old(items)
    {
      if raw.Some? {
        items := new GoMap(codec.unmarshal(raw.value).value);
      }
      if items == null {
        items := new GoMap(map[]);
      }
    }

    method Complete()
      requires Valid() && items != null
      modifies this`raw
      ensures Valid() && raw.Some? && Agree() && Value() == old(items.m)
    {
      raw := Some(codec.marshal(items.m));
    }

    method Reset()
      requires Valid()
      modifies this
      ensures Valid() && raw.None? && items == null && Value() == map[]
    {
      items, raw := null, None;
    }

    method Len() returns (n: nat)
      requires Valid()
      modifies this
      ensures Valid() && raw == old(raw) && Agree() && Value() == old(Value()) && n == |Value()|
      ensures if old(raw).Some? || old(items) == null then fresh(items) else items == old(items)
    {
      FillMap();
      n := |items.m|;
    }

    method Set(key: string, value: V)
      requires Valid()
      modifies this, Owned()
      ensures Valid() && raw.Some? && Agree() && Value() == old(Value())[key := value]
      ensures if old(raw).Some? || old(items) == null then fresh(items) else items == old(items)
    {
      FillMap();
      items.m := items.m[key := value];
      Complete();
    }

    method SetFromMap(m: map<string, V>)
      requires Valid()
      modifies this, Owned()
      ensures Valid() && raw.Some? && Agree() && Value() == old(Value()) + m
      ensures if old(raw).Some? || old(items) == null then fresh(items) else items == old(items)
    {
      FillMap();
      items.PutAll(m);
      Complete();
    }

    method Exists(keys: seq<string>) returns (found: bool)
      requires Valid()
      modifies this
      ensures Valid() && raw == old(raw) && Agree() && Value() == old(Value())
      ensures found <==> exists i :: 0 <= i < |keys| && keys[i] in Value()
      ensures if old(raw).Some? || old(items) == null then fresh(items) else items == old(items)
    {
      FillMap();
      for i := 0 to |keys|
        invariant forall h :: 0 <= h < i ==> keys[h] !in items.m
      {
        if keys[i] in items.m {
          return true;
        }
      }
      return false;
    }

    method Delete(key: string)
      requires Valid()
      modifies this, Owned()
      ensures Valid() && Agree() && Value() == old(Value()) - {key}
      ensures raw.Some? || raw == old(raw)
      ensures if old(raw).Some? || old(items) == null then fresh(items) else items == old(items)
    {
      FillMap();
      var c := |items.m|;
      ghost var before := items.m;
      items.m := items.m - {key};
      if c != |items.m| {
        Complete();
      }
      assert key !in before ==> items.m == before;
      assert key in before ==> before.Keys == items.m.Keys + {key};
    }

    method Get(key: string) returns (value: Option<V>)
      requires Valid()
      modifies this
      ensures Valid() && raw == old(raw) && Agree() && Value() == old(Value())
      ensures value == if key in Value() then Some(Value()[key]) else None
      ensures if old(raw).Some? || old(items) == null then fresh(items) else items == old(items)
    {
      FillMap();
      value := if key in items.m then Some(items.m[key]) else None;
    }

    /** A plain struct copy: the bytes are shared, and so is the decoded map. */
    method DeepCopyInto(out: RawJson<V, B>)
      requires Valid() && out != this && out.codec == codec
      modifies out
      ensures out.Valid() && out.Value() == Value() && out.raw == raw && out.items == items
      ensures Apart(this, out) <==> (raw.Some? || items == null)
    {
      out.items, out.raw := items, raw;
    }

    /** One operation of the list below, by name. */
    method Do(op: Op<V>) returns (answer: Answer<V>)
      requires Valid()
      modifies this, Owned()
      ensures Valid() && Value() == Apply(old(Value()), op).0 && answer == Apply(old(Value()), op).1
      ensures items == null || fresh(items) || (old(raw).None? && items == old(items))
    {
      answer := Done;
      match op {
        case OpSet(k, v) => Set(k, v);
        case OpSetFromMap(m) => SetFromMap(m);
        case OpDelete(k) => Delete(k);
        case OpReset => Reset();
        case OpGet(k) =>
          var value := Get(k);
          answer := Found(value);
        case OpExists(keys) =>
          var found := Exists(keys);
          answer := Yes(found);
        case OpLen =>
          var n := Len();
          answer := Size(n);
      }
    }
  }

  // ----- The plain map a RawJson behaves as

  datatype Op<V> =
    | OpSet(key: string, value: V) | OpSetFromMap(m: map<string, V>) | OpDelete(key: string)
    | OpGet(key: string) | OpExists(keys: seq<string>) | OpLen | OpReset

  datatype Answer<V> = Done | Found(value: Option<V>) | Yes(found: bool) | Size(n: nat)

  function Apply<V>(m: map<string, V>, op: Op<V>): (map<string, V>, Answer<V>) {
    match op
    case OpSet(k, v) => (m[k := v], Done)
    case OpSetFromMap(other) => (m + other, Done)
    case OpDelete(k) => (m - {k}, Done)
    case OpReset => (map[], Done)
    case OpGet(k) => (m, Found(if k in m then Some(m[k]) else None))
    case OpExists(keys) => (m, Yes(exists i :: 0 <= i < |keys| && keys[i] in m))
    case OpLen => (m, Size(|m|))
  }

  /** Two plain maps under an interleaving of operations; `true` addresses the first. */
  function ApplyAll<V>(m: map<string, V>, n: map<string, V>, ops: seq<(bool, Op<V>)>)
      : (map<string, V>, map<string, V>, seq<Answer<V>>)
  {
    if ops == [] then (m, n, [])
    else
      var (m', n', answers) := ApplyAll(m, n, ops[..|ops| - 1]);
      var (first, op) := ops[|ops| - 1];
      if first then
        var (m'', answer) := Apply(m', op);
        (m'', n', answers + [answer])
      else
        var (n'', answer) := Apply(n', op);
        (m', n'', answers + [answer])
  }

  /** One operation on `a` leaves alone whatever is apart from it. */
  method DoBeside<V(!new), B(!new)>(a: RawJson<V, B>, b: RawJson<V, B>, op: Op<V>)
      returns (answer: Answer<V>)
    requires a.Valid() && b.Valid() && RawJson.Apart(a, b)
    modifies a, a.Owned()
    ensures a.Valid() && b.Valid() && RawJson.Apart(a, b) && RawJson.Apart(b, a)
    ensures (a.Value(), answer) == Apply(old(a.Value()), op)
    ensures b.Value() == old(b.Value())
    ensures forall o :: o in a.Owned() ==> fresh(o) || o in old(a.Owned())
  {
    answer := a.Do(op);
  }

  /**
   * Any interleaving of operations on two values that are apart answers exactly as two separate
   * plain maps would, and leaves them apart.
   */
  method Interleave<V(!new), B(!new)>(a: RawJson<V, B>, b: RawJson<V, B>, ops: seq<(bool, Op<V>)>)
      returns (answers: seq<Answer<V>>)
    requires a.Valid() && b.Valid() && RawJson.Apart(a, b)
    modifies a, b, a.Owned(), b.Owned()
    ensures a.Valid() && b.Valid() && RawJson.Apart(a, b)
    ensures (a.Value(), b.Value(), answers) == ApplyAll(old(a.Value()), old(b.Value()), ops)
  {
    answers := [];
    for i := 0 to |ops|
      invariant a.Valid() && b.Valid() && RawJson.Apart(a, b) && RawJson.Apart(b, a)
      invariant forall o :: o in a.Owned() ==> fresh(o) || o in old(a.Owned())
      invariant forall o :: o in b.Owned() ==> fresh(o) || o in old(b.Owned())
      invariant (a.Value(), b.Value(), answers) == ApplyAll(old(a.Value()), old(b.Value()), ops[..i])
    {
      assert ops[..i + 1][..i] == ops[..i];
      var (first, op) := ops[i];
      var answer;
      if first {
        answer := DoBeside(a, b, op);
      } else {
        answer := DoBeside(b, a, op);
      }
      answers := answers + [answer];
    }
    assert ops[..|ops|] == ops;
  }

  /**
   * Under these operations a copy is independent exactly when it is taken while there are bytes or no
   * decoded map. In the one other state the copy shares the map, and sees the original's next write.
   */
  method CopyThenSet<V(!new, ==), B(!new)>(a: RawJson<V, B>, out: RawJson<V, B>, key: string, value: V)
    requires a.Valid() && a != out && out.codec == a.codec
    modifies a, out, a.Owned()
    ensures a.Valid() && out.Valid() && a.Value() == old(a.Value())[key := value]
    ensures out.Value() ==
      if old(a.raw).Some? || old(a.items) == null then old(a.Value()) else old(a.Value())[key := value]
  {
    a.DeepCopyInto(out);
    a.Set(key, value);
  }
}
