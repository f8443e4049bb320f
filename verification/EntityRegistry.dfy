/** The entity registry (entity.c): finding an entity and an attribute by name, and deciding who may do what. */
module EntityRegistry {
  import opened Machine
  import opened CString
  import opened Bits
  import Bsp

  const NAME_LENGTH := 32

  /** A word of flags, as the set of the numbers of its bits. */
  type Mask = set<nat>

  const INTERNAL := 31                        // BSP_PERMISSIONS_INTERNAL
  const READ_BITS: Mask := {31, 12, 8, 4, 0}  // internal, and the read bit of each client class
  const WRITE_BITS: Mask := {31, 13, 9, 5, 1}
  const INIT_BITS: Mask := {31, 14, 10, 6, 2}
  const SHUTDOWN_BITS: Mask := {31, 15, 11, 7, 3}
  const IOS_SUPV: Mask := {4, 5, 6, 7}

  const FLAT_INSTANCES := 1       // BSP_EO_FLAT_INSTANCES
  const QUERY_DATA_DIRECT := 0    // BSP_AO_QUERY_DATA_DIRECT
  const QUERY_DATA_INDIRECT := 1  // BSP_AO_QUERY_DATA_INDIRECT
  const INIT_GLOBAL := 2          // BSP_AO_INIT_GLOBAL

  datatype Command = Query | Read | Write | Init | Shutdown | Other

  /** An attribute; the flags say which handlers it has. */
  datatype Attribute = Attribute(
    name: seq<uint8>, options: Mask, permissions: Mask, data: uint32, dataSize: nat,
    readMethod: bool, queryMethod: bool, writeMethod: bool, initMethod: bool, shutdownMethod: bool)

  /** The tables are NULL-terminated in memory; here they end where the terminator would be. */
  datatype Entity = Entity(name: seq<uint8>, instanceCount: nat, options: Mask, tables: seq<seq<Attribute>>)
  {
    predicate Flat() {
      FLAT_INSTANCES in options
    }

    ghost predicate Valid() {
      && Readable(name, NAME_LENGTH)
      && |tables| >= (if Flat() then 1 else instanceCount)
      && forall i, j :: 0 <= i < |tables| && 0 <= j < |tables[i]| ==> Readable(tables[i][j].name, NAME_LENGTH)
    }

    function Table(instance: nat): seq<Attribute>
      requires Valid() && instance < instanceCount
    {
      tables[if Flat() then 0 else instance]
    }
  }

  ghost predicate ValidList(list: seq<Entity>) {
    forall i :: 0 <= i < |list| ==> list[i].Valid()
  }

  /** strncmp(a, b, 32) */
  function Order(a: seq<uint8>, b: seq<uint8>): int {
    Compare(Text(a, NAME_LENGTH), Text(b, NAME_LENGTH))
  }

  /** Strictly ascending by name. */
  ghost predicate Sorted(list: seq<Entity>) {
    forall i, j :: 0 <= i < j < |list| ==> Order(list[i].name, list[j].name) < 0
  }

  // ---- entities

  /** What the search loop does from the head of the list: match, give up early, or go on. */
  function Search(list: seq<Entity>, name: seq<uint8>): (Bsp.Rval, Option<Entity>) {
    if list == [] then (Bsp.OK, None)
    else if Order(name, list[0].name) == 0 then (Bsp.OK, Some(list[0]))
    else if Order(name, list[0].name) < 0 then (Bsp.UNKNOWN_ENTITY, None)
    else Search(list[1..], name)
  }

  function Found(list: seq<Entity>, name: seq<uint8>): (Bsp.Rval, Option<Entity>) {
    if list == [] then (Bsp.UNKNOWN_ENTITY, None) else Search(list, name)
  }

  method FindEntity(list: seq<Entity>, name: seq<uint8>) returns (ret: Bsp.Rval, e: Option<Entity>)
    requires ValidList(list) && Readable(name, NAME_LENGTH)
    ensures (ret, e) == Found(list, name)
  {
    e := None;
    if |list| == 0 {
      return Bsp.UNKNOWN_ENTITY, e;
    }
    assert list[0..] == list;
    var i := 0;
    while i < |list|
      invariant 0 <= i <= |list| && e == None
      invariant Search(list[i..], name) == Search(list, name)
    {
      var r := StrNCmp(name, list[i].name, NAME_LENGTH);
      if r == 0 {
        return Bsp.OK, Some(list[i]);
      }
      if r < 0 {
        return Bsp.UNKNOWN_ENTITY, e;
      }
      assert list[i..][1..] == list[i + 1..];
      i := i + 1;
    }
    return Bsp.OK, e;
  }

  lemma OrderTransitive(a: seq<uint8>, b: seq<uint8>, c: seq<uint8>)
    requires Order(a, b) < 0 && Order(b, c) < 0
    ensures Order(a, c) < 0
  {
    TextFacts(a, NAME_LENGTH);
    TextFacts(b, NAME_LENGTH);
    TextFacts(c, NAME_LENGTH);
    CompareTransitive(Text(a, NAME_LENGTH), Text(b, NAME_LENGTH), Text(c, NAME_LENGTH));
  }

  lemma OrderReverses(a: seq<uint8>, b: seq<uint8>)
    ensures Order(b, a) == -Order(a, b)
    ensures Order(a, b) == 0 <==> Text(a, NAME_LENGTH) == Text(b, NAME_LENGTH)
  {
    TextFacts(a, NAME_LENGTH);
    TextFacts(b, NAME_LENGTH);
    CompareReverses(Text(a, NAME_LENGTH), Text(b, NAME_LENGTH));
    CompareEqual(Text(a, NAME_LENGTH), Text(b, NAME_LENGTH));
  }

  /** The names agree up to their end, or in their first 32 characters. */
  ghost predicate Named(e: Entity, name: seq<uint8>) {
    Text(e.name, 32) == Text(name, 32)
  }

  /** The list has entries, and the name sorts after all of them. */
  ghost predicate PastEnd(list: seq<Entity>, name: seq<uint8>) {
    list != [] && forall i :: 0 <= i < |list| ==> Order(name, list[i].name) > 0
  }

  /** On any list, sorted or not: success without an entity is what a name past the end gets, and no other. */
  lemma FoundNothingIff(list: seq<Entity>, name: seq<uint8>)
    ensures Found(list, name) == (Bsp.OK, None) <==> PastEnd(list, name)
  {
    RunsOffIff(list, name);
  }

  lemma {:induction false} RunsOffIff(list: seq<Entity>, name: seq<uint8>)
    ensures Search(list, name) == (Bsp.OK, None) <==> forall i :: 0 <= i < |list| ==> Order(name, list[i].name) > 0
    decreases |list|
  {
    if list != [] {
      RunsOffIff(list[1..], name);
      forall i | 1 <= i < |list| ensures list[i] == list[1..][i - 1] {
      }
    }
  }

  /**
   On a sorted list the early exit loses nothing: an entity comes back exactly when a full scan would find one, and it
   is the only one of that name. A name that is not there is reported as unknown, unless it sorts after all entries.
   */
  lemma SearchFindsTheOne(list: seq<Entity>, name: seq<uint8>)
    requires Sorted(list)
    ensures var (ret, e) := Found(list, name);
      && (e.Some? <==> exists i :: 0 <= i < |list| && Named(list[i], name))
      && (e.Some? ==> ret == Bsp.OK && forall i :: 0 <= i < |list| ==> (Named(list[i], name) <==> list[i] == e.value))
      && (e.None? ==> ret == if PastEnd(list, name) then Bsp.OK else Bsp.UNKNOWN_ENTITY)
  {
    EarlyExit(list, name);
    FoundNothingIff(list, name);
  }

  lemma {:induction false} EarlyExit(list: seq<Entity>, name: seq<uint8>)
    requires Sorted(list)
    ensures var (ret, e) := Search(list, name);
      && (e.Some? <==> exists i :: 0 <= i < |list| && Named(list[i], name))
      && (e.Some? ==> ret == Bsp.OK && forall i :: 0 <= i < |list| ==> (Named(list[i], name) <==> list[i] == e.value))
      && (ret != Bsp.OK ==> ret == Bsp.UNKNOWN_ENTITY)
    decreases |list|
  {
    if list != [] {
      var head := list[0].name;
      OrderReverses(name, head);
      if Order(name, head) <= 0 {
        forall i | 1 <= i < |list| ensures !Named(list[i], name) {
          NotNamedBelow(name, head, list[i].name);
        }
      } else {
        EarlyExit(list[1..], name);
        forall i | 1 <= i < |list| ensures list[i] == list[1..][i - 1] {
        }
      }
    }
  }

  lemma NotNamedBelow(name: seq<uint8>, head: seq<uint8>, later: seq<uint8>)
    requires Order(name, head) <= 0 && Order(head, later) < 0
    ensures Text(later, NAME_LENGTH) != Text(name, NAME_LENGTH)
  {
    OrderReverses(name, head);
    OrderReverses(name, later);
    if Order(name, head) < 0 {
      OrderTransitive(name, head, later);
    }
  }

  // ---- permissions

  function CommandBits(cmd: Command): Mask {
    match cmd
    case Query => READ_BITS
    case Read => READ_BITS
    case Write => WRITE_BITS
    case Init => INIT_BITS
    case Shutdown => SHUTDOWN_BITS
    case Other => {}
  }

  /** Internal clients pass; an internal attribute counts as having the internal bit and no other. */
  predicate Permitted(cred: Mask, permissions: Mask, cmd: Command) {
    || INTERNAL in cred
    || cred * CommandBits(cmd) * (if INTERNAL in permissions then {INTERNAL} else permissions) != {}
  }

  /** Bits 0 to 15 are four groups of four clients' rights: a query or read needs the first of a group, and so on. */
  lemma CommandBitsIff(bit: nat)
    requires bit != 31
    ensures bit in CommandBits(Query) <==> bit < 16 && bit % 4 == 0
    ensures bit in CommandBits(Read) <==> bit < 16 && bit % 4 == 0
    ensures bit in CommandBits(Write) <==> bit < 16 && bit % 4 == 1
    ensures bit in CommandBits(Init) <==> bit < 16 && bit % 4 == 2
    ensures bit in CommandBits(Shutdown) <==> bit < 16 && bit % 4 == 3
    ensures bit !in CommandBits(Other)
  {
  }

  /** Client and attribute have right k of some group in common. */
  ghost predicate Share(cred: Mask, permissions: Mask, k: nat) {
    exists bit :: bit in cred && bit in permissions && bit < 16 && bit % 4 == k
  }

  /** Who passes, without the masks: internal attributes are closed to every client but internal ones. */
  lemma PermittedIff(cred: Mask, permissions: Mask, cmd: Command)
    ensures Permitted(cred, permissions, cmd)
       <==> || 31 in cred
            || (31 !in permissions && match cmd
                  case Query => Share(cred, permissions, 0)
                  case Read => Share(cred, permissions, 0)
                  case Write => Share(cred, permissions, 1)
                  case Init => Share(cred, permissions, 2)
                  case Shutdown => Share(cred, permissions, 3)
                  case Other => false)
  {
    var p := if INTERNAL in permissions then {INTERNAL} else permissions;
    var common := cred * CommandBits(cmd) * p;
    var k := match cmd case Write => 1 case Init => 2 case Shutdown => 3 case _ => 0;
    forall bit: nat | bit < 16 ensures bit in CommandBits(cmd) <==> cmd != Other && bit % 4 == k {
      CommandBitsIff(bit);
    }
    if common != {} {
      var bit :| bit in common;
      if bit != 31 {
        CommandBitsIff(bit);
      }
    } else {
      assert forall bit :: bit in cred && bit in p ==> bit in common || bit !in CommandBits(cmd);
    }
  }

  /** Attributes with BSP_PERMISSIONS_IOS_SUPV, as those of EE: for internal clients and IOS supervisors only. */
  lemma SupervisorOnly(cred: Mask)
    ensures Permitted(cred, IOS_SUPV, Query) <==> 31 in cred || 4 in cred
    ensures Permitted(cred, IOS_SUPV, Read) <==> 31 in cred || 4 in cred
    ensures Permitted(cred, IOS_SUPV, Write) <==> 31 in cred || 5 in cred
    ensures Permitted(cred, IOS_SUPV, Init) <==> 31 in cred || 6 in cred
    ensures Permitted(cred, IOS_SUPV, Shutdown) <==> 31 in cred || 7 in cred
    ensures Permitted(cred, IOS_SUPV, Other) <==> 31 in cred
  {
    PermittedIff(cred, IOS_SUPV, Query);
    PermittedIff(cred, IOS_SUPV, Read);
    PermittedIff(cred, IOS_SUPV, Write);
    PermittedIff(cred, IOS_SUPV, Init);
    PermittedIff(cred, IOS_SUPV, Shutdown);
    PermittedIff(cred, IOS_SUPV, Other);
  }

  // ---- attributes

  function FirstNamed(table: seq<Attribute>, name: seq<uint8>): Option<Attribute> {
    if table == [] then None
    else if Order(name, table[0].name) == 0 then Some(table[0])
    else FirstNamed(table[1..], name)
  }

  /** An attribute comes back exactly when the table has one of that name, and it is the first. */
  lemma {:induction false} FirstNamedIsFirst(table: seq<Attribute>, name: seq<uint8>)
    ensures FirstNamed(table, name).None? <==> forall k :: 0 <= k < |table| ==> !SameName(table[k], name)
    ensures FirstNamed(table, name).Some? ==>
      exists k :: IsFirst(table, k, name) && FirstNamed(table, name) == Some(table[k])
    ensures forall k :: IsFirst(table, k, name) ==> FirstNamed(table, name) == Some(table[k])
  {
    if table != [] {
      OrderReverses(name, table[0].name);
      if SameName(table[0], name) {
        assert IsFirst(table, 0, name);
      } else {
        FirstNamedIsFirst(table[1..], name);
        forall k | 0 < k < |table|
          ensures table[k] == table[1..][k - 1] && (IsFirst(table, k, name) <==> IsFirst(table[1..], k - 1, name))
        {
          FirstInRest(table, k, name);
        }
      }
    }
  }

  lemma FirstInRest(table: seq<Attribute>, k: int, name: seq<uint8>)
    requires 0 < k < |table| && !SameName(table[0], name)
    ensures table[k] == table[1..][k - 1] && (IsFirst(table, k, name) <==> IsFirst(table[1..], k - 1, name))
  {
    assert forall j :: 0 < j < |table| ==> table[j] == table[1..][j - 1];
    assert forall j :: 0 <= j < |table| - 1 ==> table[1..][j] == table[j + 1];
  }

  ghost predicate IsFirst(table: seq<Attribute>, k: int, name: seq<uint8>) {
    0 <= k < |table| && SameName(table[k], name) && forall j :: 0 <= j < k ==> !SameName(table[j], name)
  }

  ghost predicate SameName(a: Attribute, name: seq<uint8>) {
    Text(a.name, 32) == Text(name, 32)
  }

  /** The attribute is the first of that name for the instance, or in the only table if option bit 1 is set. */
  ghost predicate FirstOf(e: Entity, instance: nat, name: seq<uint8>, a: Attribute) {
    var at := if 1 in e.options then 0 else instance;
    && instance < e.instanceCount && at < |e.tables|
    && exists k :: IsFirst(e.tables[at], k, name) && a == e.tables[at][k]
  }

  lemma FirstNamedIsOf(e: Entity, instance: nat, name: seq<uint8>, a: Attribute)
    requires e.Valid() && instance < e.instanceCount && FirstNamed(e.Table(instance), name) == Some(a)
    ensures FirstOf(e, instance, name, a)
  {
    FirstNamedIsFirst(e.Table(instance), name);
  }

  function AttributeOf(e: Entity, instance: nat, name: seq<uint8>): Option<Attribute>
    requires e.Valid()
  {
    if instance >= e.instanceCount || Text(name, 1) == [] then None else FirstNamed(e.Table(instance), name)
  }

  /** The checks that a lookup goes through, in order. */
  datatype Checks = Checks(entity: bool, instance: bool, attribute: bool, permission: bool)
  {
    /** The code of the first check that fails. */
    function Verdict(): Bsp.Rval {
      if !entity then Bsp.UNKNOWN_ENTITY
      else if !instance then Bsp.INVALID_INSTANCE
      else if !attribute then Bsp.UNKNOWN_ATTRIBUTE
      else if !permission then Bsp.REQUEST_DENIED
      else Bsp.OK
    }
  }

  function AttributeIn(e: Option<Entity>, instance: nat, name: seq<uint8>): Option<Attribute>
    requires e.Some? ==> e.value.Valid()
  {
    if e.Some? then AttributeOf(e.value, instance, name) else None
  }

  /** A lookup without an attribute name goes no further than the instance. */
  function LookupChecks(e: Option<Entity>, instance: nat, name: seq<uint8>, cred: Mask, cmd: Command): Checks
    requires e.Some? ==> e.value.Valid()
  {
    var a := AttributeIn(e, instance, name);
    var unnamed := Text(name, 1) == [];
    Checks(e.Some?, e.Some? && instance < e.value.instanceCount, unnamed || a.Some?,
           unnamed || (a.Some? && Permitted(cred, a.value.permissions, cmd)))
  }

  /** What a lookup ends with. Following a null pointer is an outcome of its own, since nothing is known after it. */
  datatype Lookup = NullEntity | Answered(ret: Bsp.Rval, entity: Option<Entity>, attribute: Option<Attribute>)

  /** bspFindAttribute: it follows a null pointer exactly for an entity name past the end of the list. */
  method FindAttribute(list: seq<Entity>, entityName: seq<uint8>, instance: nat, name: seq<uint8>, cred: Mask,
                       cmd: Command) returns (out: Lookup)
    requires ValidList(list) && Readable(entityName, NAME_LENGTH) && Readable(name, NAME_LENGTH)
    ensures out.NullEntity? <==> PastEnd(list, entityName)
    ensures out.Answered? ==>
      && out.entity == Found(list, entityName).1 && (out.entity.Some? ==> out.entity.value.Valid())
      && out.ret == LookupChecks(out.entity, instance, name, cred, cmd).Verdict()
      && out.attribute == AttributeIn(out.entity, instance, name)
    ensures out.Answered? && out.attribute.Some? ==>
      out.entity.Some? && FirstOf(out.entity.value, instance, name, out.attribute.value)
  {
    var ret, e := FindEntity(list, entityName);
    FoundValid(list, entityName);
    FoundNothingIff(list, entityName);
    if ret != Bsp.OK {
      return Answered(ret, e, None);
    }
    if e.None? {
      return NullEntity;
    }
    var entity := e.value;
    if instance >= entity.instanceCount {
      return Answered(Bsp.INVALID_INSTANCE, e, None);
    }
    assert name[0] == 0 <==> Text(name, 1) == [];
    if name[0] == 0 {
      return Answered(Bsp.OK, e, None);
    }
    var a := FindInTable(entity.Table(instance), name);
    if a.None? {
      return Answered(Bsp.UNKNOWN_ATTRIBUTE, e, a);
    }
    FirstNamedIsOf(entity, instance, name, a.value);
    if INTERNAL in cred {
      return Answered(ret, e, a);
    }
    var ok := CheckPermissions(a.value.permissions, cred, cmd);
    return Answered(if ok then ret else Bsp.REQUEST_DENIED, e, a);
  }

  /** The switch over commands, for a client that is not internal. */
  method CheckPermissions(permissions: Mask, cred: Mask, cmd: Command) returns (ok: bool)
    requires INTERNAL !in cred
    ensures ok == Permitted(cred, permissions, cmd)
  {
    var p := permissions;
    if INTERNAL in p {
      p := {INTERNAL};
    }
    match cmd
    case Query => return cred * READ_BITS * p != {};
    case Read => return cred * READ_BITS * p != {};
    case Write => return cred * WRITE_BITS * p != {};
    case Init => return cred * INIT_BITS * p != {};
    case Shutdown => return cred * SHUTDOWN_BITS * p != {};
    case Other => return false;
  }

  lemma {:induction false} SearchValid(list: seq<Entity>, name: seq<uint8>)
    requires ValidList(list)
    ensures var (ret, e) := Search(list, name);
      (e.Some? ==> e.value.Valid() && ret == Bsp.OK) && (ret == Bsp.OK || ret == Bsp.UNKNOWN_ENTITY)
  {
    if list != [] {
      SearchValid(list[1..], name);
    }
  }

  lemma FoundValid(list: seq<Entity>, name: seq<uint8>)
    requires ValidList(list)
    ensures var (ret, e) := Found(list, name);
      (e.Some? ==> e.value.Valid() && ret == Bsp.OK) && (ret == Bsp.OK || ret == Bsp.UNKNOWN_ENTITY)
  {
    SearchValid(list, name);
  }

  method FindInTable(table: seq<Attribute>, name: seq<uint8>) returns (a: Option<Attribute>)
    requires Readable(name, NAME_LENGTH)
    requires forall j :: 0 <= j < |table| ==> Readable(table[j].name, NAME_LENGTH)
    ensures a == FirstNamed(table, name)
  {
    assert table[0..] == table;
    var i := 0;
    while true
      invariant 0 <= i <= |table| && FirstNamed(table[i..], name) == FirstNamed(table, name)
      decreases |table| - i
    {
      if i == |table| {
        return None;
      }
      var r := StrNCmp(name, table[i].name, NAME_LENGTH);
      if r == 0 {
        return Some(table[i]);
      }
      assert table[i..][1..] == table[i + 1..];
      i := i + 1;
    }
  }

  // ---- methods

  /**
   How a request ends: by following a null pointer, with a result code, with the handler of an attribute, or, for an
   init without an attribute name, with a walk over the table that calls some handlers and may never end.
   */
  datatype Outcome =
    | NullDereference
    | Refused(code: Bsp.Rval)
    | Runs(attribute: Attribute)
    | Walks(called: seq<Attribute>, ends: bool)

  predicate Fits(a: Attribute, cmd: Command, size: nat) {
    cmd == Init || cmd == Shutdown || size == a.dataSize
  }

  /** Queries can do without a handler. */
  predicate Handles(a: Attribute, cmd: Command) {
    match cmd
    case Query => true
    case Read => a.readMethod
    case Write => a.writeMethod
    case Init => a.initMethod
    case Shutdown => a.shutdownMethod
    case Other => false
  }

  predicate GlobalInit(a: Attribute) {
    a.initMethod && INIT_GLOBAL in a.options
  }

  /** The attributes in front of the first one without global init. */
  function Leading(table: seq<Attribute>): seq<Attribute> {
    if table == [] || !GlobalInit(table[0]) then [] else [table[0]] + Leading(table[1..])
  }

  /** What becomes of a request once its attribute is found. */
  ghost function Use(a: Attribute, size: nat, cred: Mask, cmd: Command): Outcome {
    if !Permitted(cred, a.permissions, cmd) then Refused(Bsp.REQUEST_DENIED)
    else if !Fits(a, cmd, size) then Refused(Bsp.SPECIFIED_SIZE_INVALID)
    else if !Handles(a, cmd) then Refused(Bsp.UNSUPPORTED_METHOD)
    else Runs(a)
  }

  /** What becomes of a request once its entity is found. */
  ghost function RequestOf(e: Entity, instance: nat, name: seq<uint8>, size: nat, cred: Mask, cmd: Command): Outcome
    requires e.Valid()
  {
    if instance >= e.instanceCount then Refused(Bsp.INVALID_INSTANCE)
    else if Text(name, 1) == [] then
      if cmd == Init then Walks(Leading(e.Table(instance)), Leading(e.Table(instance)) == e.Table(instance))
      else NullDereference
    else
      var a := FirstNamed(e.Table(instance), name);
      if a.None? then Refused(Bsp.UNKNOWN_ATTRIBUTE) else Use(a.value, size, cred, cmd)
  }

  ghost function Request(list: seq<Entity>, entityName: seq<uint8>, instance: nat, name: seq<uint8>, size: nat,
                         cred: Mask, cmd: Command): Outcome
    requires ValidList(list)
  {
    FoundValid(list, entityName);
    var e := Found(list, entityName).1;
    if PastEnd(list, entityName) then NullDereference
    else if e.None? then Refused(Bsp.UNKNOWN_ENTITY)
    else RequestOf(e.value, instance, name, size, cred, cmd)
  }

  method MethodRead(list: seq<Entity>, entityName: seq<uint8>, instance: nat, name: seq<uint8>, size: nat, cred: Mask)
      returns (out: Outcome)
    requires ValidList(list) && Readable(entityName, NAME_LENGTH) && Readable(name, NAME_LENGTH)
    ensures out == Request(list, entityName, instance, name, size, cred, Read)
    ensures out.Runs? ==> out.attribute.readMethod && size == out.attribute.dataSize
  {
    var l := FindAttribute(list, entityName, instance, name, cred, Read);
    if l.NullEntity? {
      return NullDereference;
    }
    if l.ret != Bsp.OK {
      return Refused(l.ret);
    }
    if l.attribute.None? {
      return NullDereference;
    }
    if size != l.attribute.value.dataSize {
      return Refused(Bsp.SPECIFIED_SIZE_INVALID);
    }
    if !l.attribute.value.readMethod {
      return Refused(Bsp.UNSUPPORTED_METHOD);
    }
    return Runs(l.attribute.value);
  }

  method MethodWrite(list: seq<Entity>, entityName: seq<uint8>, instance: nat, name: seq<uint8>, size: nat, cred: Mask)
      returns (out: Outcome)
    requires ValidList(list) && Readable(entityName, NAME_LENGTH) && Readable(name, NAME_LENGTH)
    ensures out == Request(list, entityName, instance, name, size, cred, Write)
    ensures out.Runs? ==> out.attribute.writeMethod && size == out.attribute.dataSize
  {
    var l := FindAttribute(list, entityName, instance, name, cred, Write);
    if l.NullEntity? {
      return NullDereference;
    }
    if l.ret != Bsp.OK {
      return Refused(l.ret);
    }
    if l.attribute.None? {
      return NullDereference;
    }
    if size != l.attribute.value.dataSize {
      return Refused(Bsp.SPECIFIED_SIZE_INVALID);
    }
    if !l.attribute.value.writeMethod {
      return Refused(Bsp.UNSUPPORTED_METHOD);
    }
    return Runs(l.attribute.value);
  }

  method MethodInit(list: seq<Entity>, entityName: seq<uint8>, instance: nat, name: seq<uint8>, size: nat, cred: Mask)
      returns (out: Outcome)
    requires ValidList(list) && Readable(entityName, NAME_LENGTH) && Readable(name, NAME_LENGTH)
    ensures out == Request(list, entityName, instance, name, size, cred, Init)
    ensures out.Runs? ==> out.attribute.initMethod
  {
    var l := FindAttribute(list, entityName, instance, name, cred, Init);
    if l.NullEntity? {
      return NullDereference;
    }
    if l.ret != Bsp.OK {
      return Refused(l.ret);
    }
    if l.attribute.None? {
      out := WalkTable(l.entity.value.Table(instance));
      return;
    }
    if !l.attribute.value.initMethod {
      return Refused(Bsp.UNSUPPORTED_METHOD);
    }
    return Runs(l.attribute.value);
  }

  /** The loop goes back to an attribute that it skips, so the first such attribute keeps it from ending. */
  method WalkTable(table: seq<Attribute>) returns (out: Outcome)
    ensures out == Walks(Leading(table), Leading(table) == table)
  {
    WalkEndsIff(table);
    var i := 0;
    while i < |table|
      invariant 0 <= i <= |table| && forall k :: 0 <= k < i ==> GlobalInit(table[k])
    {
      if !table[i].initMethod || INIT_GLOBAL !in table[i].options {
        return Walks(table[..i], false);
      }
      i := i + 1;
    }
    return Walks(table, true);
  }

  method MethodShutdown(list: seq<Entity>, entityName: seq<uint8>, instance: nat, name: seq<uint8>, cred: Mask)
      returns (out: Outcome)
    requires ValidList(list) && Readable(entityName, NAME_LENGTH) && Readable(name, NAME_LENGTH)
    ensures forall size :: out == Request(list, entityName, instance, name, size, cred, Shutdown)
    ensures out.Runs? ==> out.attribute.shutdownMethod
  {
    var l := FindAttribute(list, entityName, instance, name, cred, Shutdown);
    if l.NullEntity? {
      return NullDereference;
    }
    if l.ret != Bsp.OK {
      return Refused(l.ret);
    }
    if l.attribute.None? {
      return NullDereference;
    }
    if !l.attribute.value.shutdownMethod {
      return Refused(Bsp.UNSUPPORTED_METHOD);
    }
    return Runs(l.attribute.value);
  }

  // ---- what may be relied on

  /** The size is that of the attribute, but for inits and shutdowns, which may have any. */
  ghost predicate RightSize(a: Attribute, cmd: Command, size: nat) {
    cmd != Init && cmd != Shutdown ==> size == a.dataSize
  }

  /** The attribute has the handler that the request needs; queries need none. */
  ghost predicate HasHandler(a: Attribute, cmd: Command) {
    && (cmd == Read ==> a.readMethod) && (cmd == Write ==> a.writeMethod)
    && (cmd == Init ==> a.initMethod) && (cmd == Shutdown ==> a.shutdownMethod) && cmd != Other
  }

  /**
   The request names the attribute a, the k-th in the table of the instance (in the only table, if option bit 1 is
   set), and the client may use it so.
   */
  ghost predicate Grants(e: Entity, k: int, a: Attribute, instance: nat, name: seq<uint8>, size: nat, cred: Mask,
                         cmd: Command)
    requires e.Valid()
  {
    && instance < e.instanceCount && IsFirst(e.tables[if 1 in e.options then 0 else instance], k, name)
    && a == e.tables[if 1 in e.options then 0 else instance][k]
    && Permitted(cred, a.permissions, cmd) && RightSize(a, cmd, size) && HasHandler(a, cmd)
  }

  /**
   From names to handlers, without the order of the checks: on a sorted list an attribute is used exactly when it is
   the first of the given name for the given instance of the entity of the given name, and the client, the size and
   the handlers allow it.
   */
  lemma RunsIff(list: seq<Entity>, entityName: seq<uint8>, instance: nat, name: seq<uint8>, size: nat, cred: Mask,
                cmd: Command, a: Attribute)
    requires ValidList(list) && Sorted(list)
    ensures Request(list, entityName, instance, name, size, cred, cmd) == Runs(a)
       <==> Text(name, 1) != [] && exists i, k ::
              && 0 <= i < |list| && Named(list[i], entityName)
              && Grants(list[i], k, a, instance, name, size, cred, cmd)
  {
    SearchFindsTheOne(list, entityName);
    if i :| 0 <= i < |list| && Named(list[i], entityName) {
      RunsThere(list, i, entityName, instance, name, size, cred, cmd, a);
    }
  }

  lemma RunsThere(list: seq<Entity>, i: nat, entityName: seq<uint8>, instance: nat, name: seq<uint8>, size: nat,
                  cred: Mask, cmd: Command, a: Attribute)
    requires ValidList(list) && Sorted(list) && i < |list| && Named(list[i], entityName)
    ensures Request(list, entityName, instance, name, size, cred, cmd) == Runs(a)
       <==> Text(name, 1) != [] && exists k :: Grants(list[i], k, a, instance, name, size, cred, cmd)
  {
    FoundAt(list, i, entityName);
    if instance < list[i].instanceCount {
      FirstNamedIsFirst(list[i].Table(instance), name);
    }
    if Text(name, 1) != [] && RequestOf(list[i], instance, name, size, cred, cmd) == Runs(a) {
      var table := list[i].Table(instance);
      var k :| IsFirst(table, k, name) && FirstNamed(table, name) == Some(table[k]);
      UseIff(table[k], size, cred, cmd);
      assert Grants(list[i], k, a, instance, name, size, cred, cmd);
    }
  }

  /** An attribute that is found is used, or refused for the first of three reasons that applies. */
  lemma UseIff(a: Attribute, size: nat, cred: Mask, cmd: Command)
    ensures var r := Use(a, size, cred, cmd);
      var permitted, fits, handler := Permitted(cred, a.permissions, cmd), RightSize(a, cmd, size), HasHandler(a, cmd);
      && (r == Runs(a) <==> permitted && fits && handler)
      && (r.Runs? ==> r == Runs(a))
      && (r == Refused(Bsp.REQUEST_DENIED) <==> !permitted)
      && (r == Refused(Bsp.SPECIFIED_SIZE_INVALID) <==> permitted && !fits)
      && (r == Refused(Bsp.UNSUPPORTED_METHOD) <==> permitted && fits && !handler)
  {
  }

  /** An entity is called unknown exactly when no entry has its name and the name is not past the end. */
  lemma UnknownEntityIff(list: seq<Entity>, entityName: seq<uint8>, instance: nat, name: seq<uint8>, size: nat,
                         cred: Mask, cmd: Command)
    requires ValidList(list) && Sorted(list)
    ensures Request(list, entityName, instance, name, size, cred, cmd) == Refused(Bsp.UNKNOWN_ENTITY)
       <==> !PastEnd(list, entityName) && forall i :: 0 <= i < |list| ==> !Named(list[i], entityName)
  {
    SearchFindsTheOne(list, entityName);
    FoundNothingIff(list, entityName);
  }

  lemma FoundAt(list: seq<Entity>, i: nat, name: seq<uint8>)
    requires Sorted(list) && i < |list| && Named(list[i], name)
    ensures Found(list, name) == (Bsp.OK, Some(list[i])) && !PastEnd(list, name)
  {
    SearchFindsTheOne(list, name);
    FoundNothingIff(list, name);
  }

  /** Of an entity that is there, an instance is refused exactly if there are not so many. */
  lemma InstanceIff(list: seq<Entity>, i: nat, entityName: seq<uint8>, instance: nat, name: seq<uint8>, size: nat,
                    cred: Mask, cmd: Command)
    requires ValidList(list) && Sorted(list) && i < |list| && Named(list[i], entityName)
    ensures Request(list, entityName, instance, name, size, cred, cmd) == Refused(Bsp.INVALID_INSTANCE)
       <==> instance >= list[i].instanceCount
  {
    FoundAt(list, i, entityName);
  }

  /** Of an instance that is there, an attribute is called unknown exactly if its table has none of that name. */
  lemma MissingIff(list: seq<Entity>, i: nat, entityName: seq<uint8>, instance: nat, name: seq<uint8>, size: nat,
                   cred: Mask, cmd: Command)
    requires ValidList(list) && Sorted(list) && i < |list| && Named(list[i], entityName)
    requires instance < list[i].instanceCount && Text(name, 1) != []
    ensures Request(list, entityName, instance, name, size, cred, cmd) == Refused(Bsp.UNKNOWN_ATTRIBUTE)
       <==> var table := list[i].tables[if 1 in list[i].options then 0 else instance];
            forall k :: 0 <= k < |table| ==> !SameName(table[k], name)
  {
    var table := list[i].tables[if 1 in list[i].options then 0 else instance];
    assert table == list[i].Table(instance);
    FoundAt(list, i, entityName);
    FirstNamedIsFirst(table, name);
    var a := FirstNamed(table, name);
    if a.Some? {
      UseIff(a.value, size, cred, cmd);
    }
  }

  /** Of an attribute that is there, each refusal is given exactly when its reason is the first that applies. */
  lemma RefusedIff(list: seq<Entity>, i: nat, k: nat, entityName: seq<uint8>, instance: nat, name: seq<uint8>,
                   size: nat, cred: Mask, cmd: Command)
    requires ValidList(list) && Sorted(list) && i < |list| && Named(list[i], entityName) && Text(name, 1) != []
    requires instance < list[i].instanceCount
    requires IsFirst(list[i].tables[if 1 in list[i].options then 0 else instance], k, name)
    ensures var r := Request(list, entityName, instance, name, size, cred, cmd);
      var a := list[i].tables[if 1 in list[i].options then 0 else instance][k];
      var permitted, fits := Permitted(cred, a.permissions, cmd), RightSize(a, cmd, size);
      && (r == Refused(Bsp.REQUEST_DENIED) <==> !permitted)
      && (r == Refused(Bsp.SPECIFIED_SIZE_INVALID) <==> permitted && !fits)
      && (r == Refused(Bsp.UNSUPPORTED_METHOD) <==> permitted && fits && !HasHandler(a, cmd))
  {
    FoundAt(list, i, entityName);
    FirstNamedIsFirst(list[i].Table(instance), name);
    UseIff(list[i].Table(instance)[k], size, cred, cmd);
  }

  /** Every way in which a request can follow a null pointer. */
  lemma NullIff(list: seq<Entity>, entityName: seq<uint8>, instance: nat, name: seq<uint8>, size: nat, cred: Mask,
                cmd: Command)
    requires ValidList(list) && Sorted(list)
    ensures Request(list, entityName, instance, name, size, cred, cmd) == NullDereference
       <==> || PastEnd(list, entityName)
            || (cmd != Init && Text(name, 1) == []
                && exists i :: 0 <= i < |list| && Named(list[i], entityName) && instance < list[i].instanceCount)
  {
    SearchFindsTheOne(list, entityName);
    FoundNothingIff(list, entityName);
  }

  /** The walk of an unnamed init ends exactly when every attribute of the table has global init. */
  lemma {:induction false} WalkEndsIff(table: seq<Attribute>)
    ensures Leading(table) == table <==> forall i :: 0 <= i < |table| ==> table[i].initMethod && 2 in table[i].options
    ensures var n := |Leading(table)|;
      && n <= |table| && Leading(table) == table[..n] && (n == |table| || !GlobalInit(table[n]))
      && forall i :: 0 <= i < n ==> GlobalInit(table[i])
  {
    if table != [] && GlobalInit(table[0]) {
      WalkEndsIff(table[1..]);
      forall i | 0 < i < |table| ensures table[i] == table[1..][i - 1] {
      }
    }
  }

  /** An init without an attribute name walks over the table of the instance, or over the only one. */
  lemma UnnamedInit(list: seq<Entity>, i: nat, entityName: seq<uint8>, instance: nat, name: seq<uint8>, size: nat,
                    cred: Mask)
    requires ValidList(list) && Sorted(list) && i < |list| && Named(list[i], entityName)
    requires instance < list[i].instanceCount && Text(name, 1) == []
    ensures var table := list[i].tables[if 1 in list[i].options then 0 else instance];
      Request(list, entityName, instance, name, size, cred, Init) == Walks(Leading(table), Leading(table) == table)
  {
    FoundAt(list, i, entityName);
  }

  /** More credentials change nothing but a denial. In particular a request that is granted stays granted. */
  lemma CredentialsMonotone(list: seq<Entity>, entityName: seq<uint8>, instance: nat, name: seq<uint8>, size: nat,
                            cred: Mask, extra: Mask, cmd: Command)
    requires ValidList(list)
    ensures Request(list, entityName, instance, name, size, cred, cmd) != Refused(Bsp.REQUEST_DENIED) ==>
      Request(list, entityName, instance, name, size, cred + extra, cmd)
        == Request(list, entityName, instance, name, size, cred, cmd)
  {
    FoundValid(list, entityName);
    var a := AttributeIn(Found(list, entityName).1, instance, name);
    if a.Some? && Permitted(cred, a.value.permissions, cmd) {
      StaysPermitted(cred, extra, a.value.permissions, cmd);
    }
  }

  lemma StaysPermitted(cred: Mask, extra: Mask, permissions: Mask, cmd: Command)
    requires Permitted(cred, permissions, cmd)
    ensures Permitted(cred + extra, permissions, cmd)
  {
    PermittedIff(cred, permissions, cmd);
    PermittedIff(cred + extra, permissions, cmd);
  }

  /** No request is refused with a success code. */
  lemma RefusalIsAnError(list: seq<Entity>, entityName: seq<uint8>, instance: nat, name: seq<uint8>, size: nat,
                         cred: Mask, cmd: Command)
    requires ValidList(list)
    ensures Request(list, entityName, instance, name, size, cred, cmd) != Refused(Bsp.OK)
  {
    FoundValid(list, entityName);
    FoundNothingIff(list, entityName);
  }

  // ---- queries

  /**
   How a query ends: by following a null pointer, refused, left to the handler, answered with bytes, or with a copy
   from the address in data.
   */
  datatype Answer =
    | NullPointer
    | Denied(code: Bsp.Rval)
    | Handled(attribute: Attribute)
    | Bytes(bytes: seq<uint8>)
    | CopyFrom(addr: uint32)

  /** data as it lies in big-endian memory. */
  function WordBytes(data: uint32): (bs: seq<uint8>)
    ensures |bs| == 4
  {
    [data / 0x100_0000, data / 0x1_0000 % 0x100, data / 0x100 % 0x100, data % 0x100]
  }

  function BigEndian(bs: seq<uint8>): nat {
    if bs == [] then 0 else BigEndian(bs[..|bs| - 1]) * 0x100 + bs[|bs| - 1]
  }

  function Pow256(n: nat): (p: nat)
    ensures p >= 1
  {
    if n == 0 then 1 else 0x100 * Pow256(n - 1)
  }

  /** The last size bytes of the data word are the big-endian bytes of its low-order part. */
  lemma {:induction false} DirectValue(data: uint32, size: nat)
    requires size <= 4
    ensures BigEndian(WordBytes(data)[4 - size..]) == data % Pow256(size)
  {
    if size != 0 {
      DirectValue(data, size - 1);
      var bs := WordBytes(data);
      var k := 4 - size;
      assert bs[k..] == [bs[k]] + bs[k + 1..];
      BigEndianFront(bs[k], bs[k + 1..]);
      ByteOf(data, size);
      NextByte(data, Pow256(size - 1));
    }
  }

  lemma ByteOf(data: uint32, size: nat)
    requires 1 <= size <= 4
    ensures WordBytes(data)[4 - size] == data / Pow256(size - 1) % 0x100
  {
    assert Pow256(0) == 1 && Pow256(1) == 0x100 && Pow256(2) == 0x1_0000 && Pow256(3) == 0x100_0000;
  }

  lemma NextByte(x: nat, p: nat)
    requires p > 0
    ensures x % (0x100 * p) == (x / p % 0x100) * p + x % p
  {
    var q, r := x / p, x % p;
    var h, b := q / 0x100, q % 0x100;
    Regroup(p, h, b);
    DivModUnique(x, 0x100 * p, h, b * p + r);
  }

  lemma Regroup(p: nat, h: nat, b: nat)
    requires b < 0x100
    ensures p * (0x100 * h + b) == (0x100 * p) * h + b * p
    ensures b * p + p <= 0x100 * p
  {
  }

  lemma {:induction false} BigEndianFront(b: uint8, bs: seq<uint8>)
    ensures BigEndian([b] + bs) == b * Pow256(|bs|) + BigEndian(bs)
    decreases |bs|
  {
    if bs == [] {
      BigEndianStep([], b);
      assert [] + [b] == [b] + bs;
    } else {
      var front, last := bs[..|bs| - 1], bs[|bs| - 1];
      BigEndianFront(b, front);
      assert [b] + bs == ([b] + front) + [last];
      BigEndianStep([b] + front, last);
      assert b * Pow256(|bs|) == b * Pow256(|bs| - 1) * 0x100;
    }
  }

  lemma BigEndianStep(bs: seq<uint8>, b: uint8)
    ensures BigEndian(bs + [b]) == BigEndian(bs) * 0x100 + b
  {
  }

  /** A handler comes first; without one, the options decide where the data is, and direct data fits in a word. */
  method MethodQuery(list: seq<Entity>, entityName: seq<uint8>, instance: nat, name: seq<uint8>, size: nat, cred: Mask)
      returns (out: Answer)
    requires ValidList(list) && Readable(entityName, NAME_LENGTH) && Readable(name, NAME_LENGTH)
    ensures var r := Request(list, entityName, instance, name, size, cred, Query);
      && !r.Walks?
      && (out.NullPointer? <==> r.NullDereference?)
      && (r.Refused? ==> out == Denied(r.code))
      && (r.Runs? ==>
            var a := r.attribute;
            var direct, indirect := 0 in a.options, 1 in a.options;
            && size == a.dataSize
            && (out.Handled? <==> a.queryMethod)
            && (out.Handled? ==> out.attribute == a)
            && (out.Bytes? <==> !a.queryMethod && direct && size <= 4)
            && (out.Bytes? ==> out.bytes == WordBytes(a.data)[4 - size..])
            && (out.CopyFrom? <==> !a.queryMethod && !direct && indirect)
            && (out.CopyFrom? ==> out.addr == a.data)
            && (out.Denied? ==> out.code == if direct then Bsp.CFG_CORRUPTED else Bsp.QUERY_UNAVAILABLE))
  {
    var l := FindAttribute(list, entityName, instance, name, cred, Query);
    if l.NullEntity? {
      return NullPointer;
    }
    if l.ret != Bsp.OK {
      return Denied(l.ret);
    }
    if l.attribute.None? {
      return NullPointer;
    }
    var a := l.attribute.value;
    if size != a.dataSize {
      return Denied(Bsp.SPECIFIED_SIZE_INVALID);
    }
    if a.queryMethod {
      return Handled(a);
    }
    if QUERY_DATA_DIRECT in a.options {
      if size > 4 {
        return Denied(Bsp.CFG_CORRUPTED);
      }
      return Bytes(WordBytes(a.data)[4 - size..]);
    }
    if QUERY_DATA_INDIRECT in a.options {
      return CopyFrom(a.data);
    }
    return Denied(Bsp.QUERY_UNAVAILABLE);
  }
}
