/** JSON values; an object holds its members in ascending order of their names. */
module JsonValue {
  import opened JsonString

  datatype Value =
    | Null
    | Int(i: int)
    | UInt(u: nat)
    | Real(r: real)
    | Bool(b: bool)
    | Str(s: Bytes)
    | Arr(items: seq<Value>)
    | Obj(members: seq<Member>)

  datatype Member = Member(name: Bytes, value: Value)

  /** The order of names: byte by byte, and a prefix first. */
  predicate Less(a: Bytes, b: Bytes)
  {
    if b == [] then false
    else if a == [] then true
    else a[0] < b[0] || (a[0] == b[0] && Less(a[1..], b[1..]))
  }

  predicate Ascending(members: seq<Member>)
  {
    forall i | 0 < i < |members| :: Less(members[i - 1].name, members[i].name)
  }

  /** The members after `name` is given a value. */
  function Put(members: seq<Member>, name: Bytes, value: Value): seq<Member>
  {
    if members == [] then [Member(name, value)]
    else if members[0].name == name then [Member(name, value)] + members[1..]
    else if Less(name, members[0].name) then [Member(name, value)] + members
    else [members[0]] + Put(members[1..], name, value)
  }

  /** The value of the member `name`; a member that is not there yet is null. */
  function ValueAt(members: seq<Member>, name: Bytes): Value
  {
    if members == [] then Null else if members[0].name == name then members[0].value else ValueAt(members[1..], name)
  }

  predicate HasName(members: seq<Member>, name: Bytes)
  {
    exists m <- members :: m.name == name
  }

  lemma HasNameCons(m: Member, members: seq<Member>, name: Bytes)
    ensures HasName([m] + members, name) <==> m.name == name || HasName(members, name)
  {
    if m.name == name {
      assert m in [m] + members;
    }
    if x :| x in members && x.name == name {
      assert x in [m] + members;
    }
  }

  lemma {:induction false} LessIsStrict(a: Bytes, b: Bytes)
    ensures Less(a, b) ==> a != b && !Less(b, a)
    ensures a == b || Less(a, b) || Less(b, a)
  {
    if a != [] && b != [] {
      LessIsStrict(a[1..], b[1..]);
      assert a == [a[0]] + a[1..] && b == [b[0]] + b[1..];
    }
  }

  lemma {:induction false} LessTransitive(a: Bytes, b: Bytes, c: Bytes)
    requires Less(a, b) && Less(b, c)
    ensures Less(a, c)
  {
    if a != [] && a[0] == b[0] == c[0] {
      LessTransitive(a[1..], b[1..], c[1..]);
    }
  }

  lemma {:induction false} FirstIsLeast(members: seq<Member>, i: nat)
    requires Ascending(members) && 0 < i < |members|
    ensures Less(members[0].name, members[i].name)
  {
    if i > 1 {
      FirstIsLeast(members, i - 1);
      LessTransitive(members[0].name, members[i - 1].name, members[i].name);
    }
  }

  /** Afterwards the name has that value, also when it had another, and every other name has the value that it had. */
  lemma {:induction false} PutSets(members: seq<Member>, name: Bytes, value: Value, other: Bytes)
    ensures ValueAt(Put(members, name, value), name) == value
    ensures other != name ==> ValueAt(Put(members, name, value), other) == ValueAt(members, other)
  {
    if members != [] {
      PutSets(members[1..], name, value, other);
      assert ([Member(name, value)] + members)[1..] == members;
    }
  }

  /** No name but that one is added, and none is lost. */
  lemma {:induction false} PutNames(members: seq<Member>, name: Bytes, value: Value, other: Bytes)
    ensures HasName(Put(members, name, value), other) <==> other == name || HasName(members, other)
  {
    hide HasName;
    var added := Member(name, value);
    assert !HasName([], other) by { NoNames(other); }
    if members == [] {
      HasNameCons(added, [], other);
      assert [added] + [] == [added];
    } else {
      var first, more := members[0], members[1..];
      assert members == [first] + more;
      HasNameCons(first, more, other);
      PutNames(more, name, value, other);
      HasNameCons(added, more, other);
      HasNameCons(added, members, other);
      HasNameCons(first, Put(more, name, value), other);
    }
  }

  lemma NoNames(name: Bytes)
    ensures !HasName([], name)
  {
  }

  /** A name beyond all others goes last. */
  lemma {:induction false} PutLast(members: seq<Member>, name: Bytes, value: Value)
    requires Ascending(members + [Member(name, value)])
    ensures Put(members, name, value) == members + [Member(name, value)]
  {
    if members != [] {
      var all := members + [Member(name, value)];
      FirstIsLeast(all, |members|);
      LessIsStrict(members[0].name, name);
      assert all[1..] == members[1..] + [Member(name, value)];
      forall i | 0 < i < |all[1..]|
        ensures Less(all[1..][i - 1].name, all[1..][i].name)
      {
        assert all[1..][i - 1] == all[i] && all[1..][i] == all[i + 1];
        assert Less(all[i + 1 - 1].name, all[i + 1].name);
      }
      PutLast(members[1..], name, value);
      assert members == [members[0]] + members[1..];
    }
  }
}
