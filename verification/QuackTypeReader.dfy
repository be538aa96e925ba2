/** The type reader of src/ducknng_quack.c as the source runs it: field loops that
    advance a byte reader and fill in a node. Each method is proved to do what its
    counterpart on values does, down to the kind of error; after a failed read the
    position no longer matters, because the caller gives up. */
module QuackTypeReader {
  import opened Leb128
  import opened ByteKernel
  import opened Options
  import opened QuackTypes
  import opened Widths

  /** A read of `p` ended with return code `rc`. The kind of a failure of the byte kernel is
      left in the reader's status; a complaint of the type reader's own, which is always
      `Invalid`, leaves the status good. */
  ghost predicate Ended<T>(r: Reader, p: Parsed<T>, rc: int)
    reads r
  {
    && r.Valid()
    && match p
       case Got(_, rest) => rc == 0 && r.Unread() == rest && r.status.Good?
       case Bad(kind) => rc == -1 && (r.status == kind || (r.status.Good? && kind.Invalid?))
  }

  method ReadIdentifierInto(r: Reader) returns (rc: int, text: CString)
    requires r.Valid() && r.status.Good?
    modifies r
    ensures Ended(r, ReadIdentifier(old(r.Unread())), rc)
    ensures rc == 0 ==> text == ReadIdentifier(old(r.Unread())).value
  {
    var data;
    rc, data := r.NextCounted();
    if rc != 0 || 0 in data || |data| > SIZE_MAX { return -1, []; }
    text := data;
  }

  /** `ducknng_quack_read_type_node`. */
  method ReadTypeNode(r: Reader, depth: nat) returns (rc: int, t: Node)
    requires r.Valid() && r.status.Good?
    modifies r
    ensures Ended(r, ReadType(old(r.Unread()), depth), rc)
    ensures rc == 0 ==> t == ReadType(old(r.Unread()), depth).value
    decreases |r.Unread()|, 1
  {
    hide ReadU16, ReadUleb, ReadBoolean, NeedsInfo, ShapeOk;
    t := Bare(0);
    if depth > MAX_NESTING { return -1, t; }
    var seenId, seenInfo, present := false, false, false;
    while true
      invariant r.Valid() && r.status.Good? && |r.Unread()| <= |old(r.Unread())|
      invariant ReadTypeFields(r.Unread(), depth, t, seenId, seenInfo, present) == ReadType(old(r.Unread()), depth)
      decreases |r.Unread()|
    {
      var field, value, flag;
      rc, field := r.NextU16le();
      if rc != 0 { return -1, t; }
      if field == FIELD_END { break; }
      if field == 100 {
        if seenId { return -1, t; }
        rc, value := r.NextUleb128();
        if rc != 0 || value > 0x7fff_ffff { return -1, t; }
        t, seenId := t.(id := value), true;
      } else if field == 101 {
        if !seenId || seenInfo { return -1, t; }
        seenInfo := true;
        rc, flag := r.NextBoolean();
        if rc != 0 { return -1, t; }
        present := flag;
        if present {
          rc, t := ReadTypeInfo(r, t, depth);
          if rc != 0 { return -1, t; }
        }
      } else {
        return -1, t;
      }
    }
    if !seenId || (NeedsInfo(t.id) && (!seenInfo || !present)) { return -1, t; }
    if !present && !ShapeOk(t) { return -1, t; }
    rc := 0;
  }

  /** `ducknng_quack_read_type_info`. */
  method ReadTypeInfo(r: Reader, start: Node, depth: nat) returns (rc: int, t: Node)
    requires r.Valid() && r.status.Good?
    modifies r
    ensures Ended(r, ReadInfoFields(old(r.Unread()), depth, start, {}, 0), rc)
    ensures rc == 0 ==> t == ReadInfoFields(old(r.Unread()), depth, start, {}, 0).value
    decreases |r.Unread()|, 0
  {
    hide ReadU16, ReadUleb, ReadBoolean, ReadCounted, ReadField200, ReadField201, ShapeOk, InfoKind, Required;
    t := start;
    var seen: set<nat>, declared: nat := {}, 0;
    while true
      invariant r.Valid() && r.status.Good? && |r.Unread()| <= |old(r.Unread())|
      invariant ReadInfoFields(r.Unread(), depth, t, seen, declared)
        == ReadInfoFields(old(r.Unread()), depth, start, {}, 0)
      decreases |r.Unread()|
    {
      var field, value, flag, text;
      rc, field := r.NextU16le();
      if rc != 0 { return -1, t; }
      if field == FIELD_END { break; }
      if field in seen { return -1, t; }
      if field == 100 {
        rc, value := r.NextUleb128();
        if rc != 0 || value != InfoKind(t.id) { return -1, t; }
      } else if field == 101 {
        rc, text := r.NextCounted();
        if rc != 0 { return -1, t; }
      } else if field == 103 {
        rc, flag := r.NextBoolean();
        if rc != 0 || flag { return -1, t; }
      } else if field == 200 {
        rc, t, declared := ReadField200Into(r, t, depth);
        if rc != 0 { return -1, t; }
      } else if field == 201 {
        if 200 !in seen { return -1, t; }
        rc, t := ReadField201Into(r, t, declared);
        if rc != 0 { return -1, t; }
      } else {
        return -1, t;
      }
      seen := seen + {field};
    }
    if !(Required(t.id) <= seen) || !ShapeOk(t) { return -1, t; }
    rc := 0;
  }

  method ReadField200Into(r: Reader, start: Node, depth: nat) returns (rc: int, t: Node, declared: nat)
    requires r.Valid() && r.status.Good?
    modifies r
    ensures Ended(r, ReadField200(old(r.Unread()), depth, start), rc)
    ensures rc == 0 ==> (t, declared) == ReadField200(old(r.Unread()), depth, start).value
    decreases |r.Unread()|, 2
  {
    hide ReadUleb, ReadType, ReadMembers;
    t, declared := start, 0;
    var value;
    if t.id == DECIMAL {
      rc, value := r.NextUleb128();
      if rc != 0 || value == 0 || value > 38 { return -1, t, 0; }
      t := t.(width := value);
    } else if HasOneChild(t.id) {
      var child;
      rc, child := ReadTypeNode(r, depth + 1);
      if rc != 0 { return -1, t, 0; }
      t := t.(members := t.members + [Member([], child)]);
    } else if HasMembers(t.id) {
      rc, value := r.NextUleb128();
      if rc != 0 || value > MAX_STRUCT_MEMBERS || value > |r.data| - r.off { return -1, t, 0; }
      var members;
      rc, members := ReadMembersInto(r, depth + 1, value);
      if rc != 0 { return -1, t, 0; }
      t := t.(members := members);
    } else if t.id == ENUM {
      rc, value := r.NextUleb128();
      if rc != 0 || value > MAX_ENUM_VALUES { return -1, t, 0; }
      declared := value;
    } else {
      rc := -1;
    }
  }

  method ReadField201Into(r: Reader, start: Node, declared: nat) returns (rc: int, t: Node)
    requires r.Valid() && r.status.Good?
    modifies r
    ensures Ended(r, ReadField201(old(r.Unread()), start, declared), rc)
    ensures rc == 0 ==> t == ReadField201(old(r.Unread()), start, declared).value
  {
    hide ReadUleb, ReadLabels;
    t := start;
    if t.id != DECIMAL && t.id != ARRAY && t.id != ENUM { return -1, t; }
    var value;
    rc, value := r.NextUleb128();
    if rc != 0 { return -1, t; }
    if t.id == DECIMAL {
      if value > 38 { return -1, t; }
      t := t.(scale := value);
    } else if t.id == ARRAY {
      if value == 0 || value > 0xffff_ffff { return -1, t; }
      t := t.(arraySize := value);
    } else {
      if value != declared || value > MAX_ENUM_VALUES || value > |r.data| - r.off { return -1, t; }
      var labels;
      rc, labels := ReadLabelsInto(r, value);
      if rc != 0 { return -1, t; }
      t := t.(labels := labels);
    }
  }

  /** Read the rest after what has been read: how a counted loop's result grows. */
  ghost function Then<T>(done: seq<T>, p: Parsed<seq<T>>): Parsed<seq<T>> {
    match p
    case Got(more, rest) => Got(done + more, rest)
    case Bad(s) => Bad(s)
  }

  method ReadLabelsInto(r: Reader, n: nat) returns (rc: int, labels: seq<CString>)
    requires r.Valid() && r.status.Good?
    modifies r
    ensures Ended(r, ReadLabels(old(r.Unread()), n), rc)
    ensures rc == 0 ==> labels == ReadLabels(old(r.Unread()), n).value
  {
    hide ReadIdentifier;
    labels := [];
    ghost var all := ReadLabels(r.Unread(), n);
    assert all.Got? ==> [] + all.value == all.value;
    var i := 0;
    while i < n
      invariant 0 <= i <= n && r.Valid() && r.status.Good?
      invariant Then(labels, ReadLabels(r.Unread(), n - i)) == ReadLabels(old(r.Unread()), n)
    {
      var text;
      rc, text := ReadIdentifierInto(r);
      if rc != 0 { return -1, labels; }
      ghost var p := ReadLabels(r.Unread(), n - i - 1);
      assert p.Got? ==> labels + ([text] + p.value) == labels + [text] + p.value;
      labels := labels + [text];
      i := i + 1;
    }
    rc := 0;
  }

  method ReadMembersInto(r: Reader, depth: nat, n: nat) returns (rc: int, members: seq<Member>)
    requires r.Valid() && r.status.Good?
    modifies r
    ensures Ended(r, ReadMembers(old(r.Unread()), depth, n), rc)
    ensures rc == 0 ==> members == ReadMembers(old(r.Unread()), depth, n).value
    decreases |r.Unread()|, 1
  {
    hide ReadPairFields, ReadMembers;
    members := [];
    ghost var all := ReadMembers(r.Unread(), depth, n);
    assert all.Got? ==> [] + all.value == all.value;
    var i := 0;
    while i < n
      invariant 0 <= i <= n && r.Valid() && r.status.Good? && |r.Unread()| <= |old(r.Unread())|
      invariant Then(members, ReadMembers(r.Unread(), depth, n - i)) == ReadMembers(old(r.Unread()), depth, n)
    {
      var member;
      MembersStep(r.Unread(), depth, n - i, members);
      rc, member := ReadChildPair(r, depth);
      if rc != 0 { return -1, members; }
      members := members + [member];
      i := i + 1;
    }
    NoMembers(r.Unread(), depth);
    rc := 0;
  }

  /** One turn of the member loop, and its end. */
  lemma MembersStep(s: bytes, depth: nat, n: nat, done: seq<Member>)
    requires n > 0
    ensures var first, p := ReadPairFields(s, depth, None, None), ReadMembers(s, depth, n);
      match first
      case Bad(kind) => p == Bad(kind)
      case Got(member, rest) => Then(done, p) == Then(done + [member], ReadMembers(rest, depth, n - 1))
  {
    hide ReadPairFields;
    var first := ReadPairFields(s, depth, None, None);
    if first.Got? {
      var p := ReadMembers(first.rest, depth, n - 1);
      if p.Got? { assert done + ([first.value] + p.value) == done + [first.value] + p.value; }
    }
  }

  lemma NoMembers(s: bytes, depth: nat)
    ensures ReadMembers(s, depth, 0) == Got([], s)
  {
  }

  /** `ducknng_quack_read_child_pair`. */
  method ReadChildPair(r: Reader, depth: nat) returns (rc: int, member: Member)
    requires r.Valid() && r.status.Good?
    modifies r
    ensures Ended(r, ReadPairFields(old(r.Unread()), depth, None, None), rc)
    ensures rc == 0 ==> member == ReadPairFields(old(r.Unread()), depth, None, None).value
    decreases |r.Unread()|, 0
  {
    hide ReadU16, ReadIdentifier, ReadType;
    var name: Option<CString>, kind: Option<Node> := None, None;
    member := Member([], Bare(0));
    while true
      invariant r.Valid() && r.status.Good? && |r.Unread()| <= |old(r.Unread())|
      invariant ReadPairFields(r.Unread(), depth, name, kind) == ReadPairFields(old(r.Unread()), depth, None, None)
      decreases |r.Unread()|
    {
      var field, text, child;
      rc, field := r.NextU16le();
      if rc != 0 { return -1, member; }
      if field == FIELD_END { break; }
      if field == 0 {
        if name.Some? { return -1, member; }
        rc, text := ReadIdentifierInto(r);
        if rc != 0 { return -1, member; }
        name := Some(text);
      } else if field == 1 {
        if kind.Some? { return -1, member; }
        rc, child := ReadTypeNode(r, depth);
        if rc != 0 { return -1, member; }
        kind := Some(child);
      } else {
        return -1, member;
      }
    }
    if kind.None? { return -1, member; }
    member := Member(if name.None? then [] else name.value, kind.value);
    rc := 0;
  }
}
