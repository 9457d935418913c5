/**
 Checking the arguments of an entry function: which types may be passed at all, and which values of
 those types. The source walks types and values with loops; here the loops are proved against
 recursive definitions.
 */
module EntryValidation {
  import opened Wrappers
  import opened Bytes
  import opened MoveTypes
  import Utf8

  // ----- Types -----

  const STRING: string := "String"
  const OBJECT: string := "Object"
  const OPTION: string := "Option"
  const FIXED_POINT_32: string := "FixedPoint32"
  const FIXED_POINT_64: string := "FixedPoint64"

  predicate IsAllowedStruct(tag: StructTag) {
    && tag.address == ONE
    && (tag.moduleName, tag.name) in [
         ("string", STRING), ("object", OBJECT), ("option", OPTION),
         ("fixed_point32", FIXED_POINT_32), ("fixed_point64", FIXED_POINT_64)]
  }

  /** `Unreachable` is the panic on an allowed struct with more than one type parameter. */
  datatype TypeVerdict = Allowed | Disallowed | Unreachable

  function VerdictOf(tag: TypeTag): TypeVerdict {
    match tag
    case TagVector(elem) => VerdictOf(elem)
    case TagStruct(s) =>
      if !IsAllowedStruct(s) then Disallowed
      else if s.typeArgs == [] then Allowed
      else if |s.typeArgs| > 1 then Unreachable
      else if s.name == OPTION then VerdictOf(s.typeArgs[0])
      else Allowed
    case _ => Allowed
  }

  method ValidateEntryTypeTag(tag: TypeTag) returns (r: TypeVerdict)
    ensures r == VerdictOf(tag)
  {
    var current := tag;
    while true
      invariant VerdictOf(current) == VerdictOf(tag)
      decreases current
    {
      match current {
        case TagVector(elem) =>
          current := elem;
        case TagStruct(s) =>
          if !IsAllowedStruct(s) {
            return Disallowed;
          }
          if s.typeArgs == [] {
            return Allowed;
          }
          if |s.typeArgs| > 1 {
            return Unreachable;
          }
          if s.name == OPTION {
            current := s.typeArgs[0];
          } else {
            return Allowed;
          }
        case _ =>
          return Allowed;
      }
    }
  }

  /** The layout the virtual machine gives a type: the five known structs as the framework declares them. */
  predicate Describes(l: Layout, tag: TypeTag) {
    match tag
    case TagBool => l.LBool?
    case TagUint(w) => l == LUint(w)
    case TagAddress => l.LAddress?
    case TagSigner => l.LSigner?
    case TagVector(elem) => l.LVector? && Describes(l.elem, elem)
    case TagStruct(s) =>
      && l.LStruct? && l.tag == s
      && (IsAllowedStruct(s) ==>
            match s.name
            case "String" => s.typeArgs == [] && l.fields == [LVector(LU8)]
            case "Object" => |s.typeArgs| == 1 && l.fields == [LAddress]
            case "Option" =>
              |s.typeArgs| == 1 && |l.fields| == 1 && l.fields[0].LVector? && Describes(l.fields[0].elem, s.typeArgs[0])
            case "FixedPoint32" => s.typeArgs == [] && l.fields == [LUint(W64)]
            case _ => s.typeArgs == [] && l.fields == [LUint(W128)])
  }

  /** Every struct that a value of this layout can hold is one of the five. */
  predicate HoldsOnlyAllowed(l: Layout) {
    match l
    case LVector(elem) => HoldsOnlyAllowed(elem)
    case LStruct(tag, fields) =>
      IsAllowedStruct(tag) && forall i :: 0 <= i < |fields| ==> HoldsOnlyAllowed(fields[i])
    case _ => true
  }

  /** No value of a struct outside the five, such as a token or a capability, can be passed at any depth. */
  lemma {:induction false} OnlyAllowedStructs(l: Layout, tag: TypeTag)
    requires Describes(l, tag)
    ensures VerdictOf(tag) == Allowed <==> HoldsOnlyAllowed(l)
    ensures VerdictOf(tag) != Unreachable
    decreases l
  {
    match tag
    case TagVector(elem) => OnlyAllowedStructs(l.elem, elem);
    case TagStruct(s) =>
      if IsAllowedStruct(s) {
        if s.name == OPTION {
          OnlyAllowedStructs(l.fields[0].elem, s.typeArgs[0]);
          assert l.fields == [l.fields[0]];
        }
      }
    case _ =>
  }

  // ----- Values -----

  datatype Violation =
    | OnlyAllowedStructsReach
    | StringStructHasField | StringStructFieldIsVector | StringElementsAreU8
    | OptionHasInnerType | OptionStructHasField | OptionStructFieldIsVector
    | ObjectStructHasTypeParameter | ObjectStructHasField | ObjectStructFieldIsAddress
    | ObjectCoreTypeExists | ObjectInnerTypeExists

  datatype Cause =
    | InvalidSigner | InvalidString | InvalidOption | InvalidObject
    | DisallowedEntryFunctionType | MismatchedArgumentCount | FailedArgumentDeserialization
    | UnsupportedNestedReference | Panicked
    | Invariant(violation: Violation)

  /** The value was looked into and found not to meet its type's invariant. */
  predicate Refusal(c: Cause) {
    c.InvalidSigner? || c.InvalidString? || c.InvalidOption? || c.InvalidObject?
  }

  /** The signer, and what the session can load: types, object cores and resources by address. */
  datatype Env = Env(
    signer: AccountAddress, coreTypeLoads: bool, loadable: set<TypeTag>,
    cores: set<AccountAddress>, held: set<(AccountAddress, TypeTag)>)

  predicate StringAccepted(fields: seq<MoveValue>) {
    fields != [] && fields[0].MVector? && IsBytes(fields[0].elems) && Utf8.Valid(ToBytes(fields[0].elems))
  }

  predicate ObjectAccepted(env: Env, fields: seq<MoveValue>, typeArgs: seq<TypeTag>) {
    && typeArgs != [] && fields != [] && fields[0].MAddress?
    && env.coreTypeLoads && fields[0].address in env.cores
    && typeArgs[0] in env.loadable && (fields[0].address, typeArgs[0]) in env.held
  }

  /** What the source means to accept, told by recursion over the value. */
  predicate Accepts(env: Env, tag: TypeTag, v: MoveValue)
    decreases v
  {
    match (tag, v)
    case (TagSigner, MSigner(a)) => a == env.signer
    case (TagVector(elem), MVector(elems)) => forall i :: 0 <= i < |elems| ==> Accepts(env, elem, elems[i])
    case (TagStruct(s), MStruct(fields)) =>
      if s.name == STRING then StringAccepted(fields)
      else if s.name == OBJECT then ObjectAccepted(env, fields, s.typeArgs)
      else if s.name == OPTION then
        && fields != [] && fields[0].MVector? && |fields[0].elems| <= 1
        && (fields[0].elems != [] ==> s.typeArgs != [] && Accepts(env, s.typeArgs[0], fields[0].elems[0]))
      else s.name == FIXED_POINT_32 || s.name == FIXED_POINT_64
    case _ => true
  }

  /** Everything the check looks into has the shape it expects, so that it cannot report a violation. */
  predicate Shaped(env: Env, tag: TypeTag, v: MoveValue)
    decreases v
  {
    match (tag, v)
    case (TagVector(elem), MVector(elems)) => forall i :: 0 <= i < |elems| ==> Shaped(env, elem, elems[i])
    case (TagStruct(s), MStruct(fields)) =>
      if s.name == STRING then fields != [] && fields[0].MVector? && IsBytes(fields[0].elems)
      else if s.name == OBJECT then
        s.typeArgs != [] && fields != [] && fields[0].MAddress? && env.coreTypeLoads && s.typeArgs[0] in env.loadable
      else if s.name == OPTION then
        && fields != [] && fields[0].MVector?
        && (|fields[0].elems| == 1 ==> s.typeArgs != [] && Shaped(env, s.typeArgs[0], fields[0].elems[0]))
      else s.name == FIXED_POINT_32 || s.name == FIXED_POINT_64
    case _ => true
  }

  method ValidateString(fields: seq<MoveValue>) returns (r: Result<(), Cause>)
    ensures r.Ok? <==> StringAccepted(fields)
    ensures r.Err? && Refusal(r.error) ==> r.error == InvalidString
    ensures r.Err? && !Refusal(r.error) ==> fields == [] || !fields[0].MVector? || !IsBytes(fields[0].elems)
  {
    if fields == [] {
      return Err(Invariant(StringStructHasField));
    }
    match fields[0] {
      case MVector(elems) =>
        var bytes: seq<byte> := [];
        var i := 0;
        while i < |elems|
          invariant 0 <= i <= |elems| && IsBytes(elems[..i]) && bytes == ToBytes(elems[..i])
        {
          if !IsU8(elems[i]) {
            return Err(Invariant(StringElementsAreU8));
          }
          bytes := bytes + [elems[i].n];
          i := i + 1;
        }
        assert elems[..i] == elems;
        if !Utf8.Valid(bytes) {
          return Err(InvalidString);
        }
        return Ok(());
      case _ =>
        return Err(Invariant(StringStructFieldIsVector));
    }
  }

  function ValidateObject(env: Env, fields: seq<MoveValue>, typeArgs: seq<TypeTag>): (r: Result<(), Cause>)
    ensures r.Ok? <==> ObjectAccepted(env, fields, typeArgs)
    ensures r.Err? && Refusal(r.error) ==> r.error == InvalidObject
    ensures r.Err? && !Refusal(r.error) ==>
      typeArgs == [] || fields == [] || !fields[0].MAddress? || !env.coreTypeLoads || typeArgs[0] !in env.loadable
  {
    if typeArgs == [] then Err(Invariant(ObjectStructHasTypeParameter))
    else if fields == [] then Err(Invariant(ObjectStructHasField))
    else if !fields[0].MAddress? then Err(Invariant(ObjectStructFieldIsAddress))
    else if !env.coreTypeLoads then Err(Invariant(ObjectCoreTypeExists))
    else if fields[0].address !in env.cores then Err(InvalidObject)
    else if typeArgs[0] !in env.loadable then Err(Invariant(ObjectInnerTypeExists))
    else if (fields[0].address, typeArgs[0]) !in env.held then Err(InvalidObject)
    else Ok(())
  }

  /** The value inside an option, if there is one. */
  function ValidateOption(fields: seq<MoveValue>): (r: Result<Option<MoveValue>, Cause>)
    ensures r.Ok? <==> fields != [] && fields[0].MVector? && |fields[0].elems| <= 1
    ensures r.Ok? && r.value.Some? ==> fields[0].elems == [r.value.value]
    ensures r.Ok? && r.value.None? ==> fields[0].elems == []
    ensures r.Err? && Refusal(r.error) ==> r.error == InvalidOption
    ensures r.Err? && !Refusal(r.error) ==> fields == [] || !fields[0].MVector?
  {
    if fields == [] then Err(Invariant(OptionStructHasField))
    else if !fields[0].MVector? then Err(Invariant(OptionStructFieldIsVector))
    else
      match |fields[0].elems|
      case 0 => Ok(None)
      case 1 => Ok(Some(fields[0].elems[0]))
      case _ => Err(InvalidOption)
  }

  // ----- The stack -----

  datatype Item = Item(tag: TypeTag, value: MoveValue)

  predicate AcceptsAll(env: Env, stack: seq<Item>) {
    forall i :: 0 <= i < |stack| ==> Accepts(env, stack[i].tag, stack[i].value)
  }

  predicate ShapedAll(env: Env, stack: seq<Item>) {
    forall i :: 0 <= i < |stack| ==> Shaped(env, stack[i].tag, stack[i].value)
  }

  /** The number of nodes of a value, and of the values on the stack. */
  function Size(v: MoveValue): nat {
    match v
    case MVector(elems) => 1 + SizeAll(elems)
    case MStruct(fields) => 1 + SizeAll(fields)
    case _ => 1
  }

  function SizeAll(vs: seq<MoveValue>): nat {
    if vs == [] then 0 else SizeAll(vs[..|vs| - 1]) + Size(vs[|vs| - 1])
  }

  function StackSize(stack: seq<Item>): nat {
    if stack == [] then 0 else StackSize(stack[..|stack| - 1]) + Size(stack[|stack| - 1].value)
  }

  function Items(tag: TypeTag, elems: seq<MoveValue>): (r: seq<Item>)
    ensures |r| == |elems| && forall i :: 0 <= i < |elems| ==> r[i] == Item(tag, elems[i])
  {
    seq(|elems|, i requires 0 <= i < |elems| => Item(tag, elems[i]))
  }

  /** Pushes each element of a vector. */
  method PushAll(stack: seq<Item>, tag: TypeTag, elems: seq<MoveValue>) returns (r: seq<Item>)
    ensures r == stack + Items(tag, elems)
  {
    r := stack;
    var i := 0;
    while i < |elems|
      invariant 0 <= i <= |elems| && r == stack + Items(tag, elems[..i])
    {
      r := r + [Item(tag, elems[i])];
      i := i + 1;
    }
    assert elems[..i] == elems;
  }

  lemma {:induction false} PushedSize(stack: seq<Item>, tag: TypeTag, elems: seq<MoveValue>)
    ensures StackSize(stack + Items(tag, elems)) == StackSize(stack) + SizeAll(elems)
    decreases |elems|
  {
    hide Size;
    if elems == [] {
      assert stack + Items(tag, elems) == stack;
    } else {
      var init := elems[..|elems| - 1];
      var all := stack + Items(tag, elems);
      PushedSize(stack, tag, init);
      assert all[..|all| - 1] == stack + Items(tag, init);
    }
  }

  lemma PushedAccepts(env: Env, stack: seq<Item>, tag: TypeTag, elems: seq<MoveValue>)
    ensures AcceptsAll(env, stack + Items(tag, elems))
      == (AcceptsAll(env, stack) && forall i :: 0 <= i < |elems| ==> Accepts(env, tag, elems[i]))
  {
    hide Accepts;
    var all := stack + Items(tag, elems);
    if AcceptsAll(env, all) {
      forall i | 0 <= i < |stack| ensures Accepts(env, stack[i].tag, stack[i].value) {
        assert all[i] == stack[i];
      }
      forall i | 0 <= i < |elems| ensures Accepts(env, tag, elems[i]) {
        assert all[|stack| + i] == Item(tag, elems[i]);
      }
    }
  }

  lemma PushedShaped(env: Env, stack: seq<Item>, tag: TypeTag, elems: seq<MoveValue>)
    requires ShapedAll(env, stack) && forall i :: 0 <= i < |elems| ==> Shaped(env, tag, elems[i])
    ensures ShapedAll(env, stack + Items(tag, elems))
  {
    hide Shaped;
  }

  lemma EmptyStack(env: Env)
    ensures AcceptsAll(env, []) && ShapedAll(env, []) && StackSize([]) == 0
  {
  }

  lemma PushOne(env: Env, stack: seq<Item>, item: Item)
    ensures AcceptsAll(env, stack + [item]) == (AcceptsAll(env, stack) && Accepts(env, item.tag, item.value))
    ensures ShapedAll(env, stack + [item]) == (ShapedAll(env, stack) && Shaped(env, item.tag, item.value))
    ensures StackSize(stack + [item]) == StackSize(stack) + Size(item.value)
  {
    hide Accepts, Shaped, Size;
    var pushed := stack + [item];
    assert pushed[..|stack|] == stack && pushed[|stack|] == item;
    if AcceptsAll(env, pushed) {
      forall i | 0 <= i < |stack| ensures Accepts(env, stack[i].tag, stack[i].value) {
        assert pushed[i] == stack[i];
      }
    }
    if ShapedAll(env, pushed) {
      forall i | 0 <= i < |stack| ensures Shaped(env, stack[i].tag, stack[i].value) {
        assert pushed[i] == stack[i];
      }
    }
  }

  /**
   The loop over an explicit stack stops, and accepts exactly what the recursive definition accepts; on
   a value of the expected shape it never reports an invariant violation.
   */
  method ValidateEntryValue(env: Env, tag: TypeTag, value: MoveValue) returns (r: Result<(), Cause>)
    ensures r.Ok? <==> Accepts(env, tag, value)
    ensures Shaped(env, tag, value) && r.Err? ==> Refusal(r.error)
  {
    hide StringAccepted, ObjectAccepted, AcceptsAll, ShapedAll, StackSize;
    EmptyStack(env);
    var stack := [Item(tag, value)];
    PushOne(env, [], Item(tag, value));
    assert [] + [Item(tag, value)] == stack;
    while stack != []
      invariant AcceptsAll(env, stack) == Accepts(env, tag, value)
      invariant Shaped(env, tag, value) ==> ShapedAll(env, stack)
      decreases StackSize(stack)
    {
      var top := stack[|stack| - 1];
      var rest := stack[..|stack| - 1];
      assert rest + [top] == stack;
      PushOne(env, rest, top);
      stack := rest;
      match (top.tag, top.value) {
        case (TagSigner, MSigner(a)) =>
          if a != env.signer {
            return Err(InvalidSigner);
          }
        case (TagVector(elem), MVector(elems)) =>
          PushedAccepts(env, stack, elem, elems);
          PushedSize(stack, elem, elems);
          if ShapedAll(env, stack) && (forall i :: 0 <= i < |elems| ==> Shaped(env, elem, elems[i])) {
            PushedShaped(env, stack, elem, elems);
          }
          stack := PushAll(stack, elem, elems);
        case (TagStruct(s), MStruct(fields)) =>
          if s.name == STRING {
            r := ValidateString(fields);
            if r.Err? {
              return;
            }
          } else if s.name == OBJECT {
            r := ValidateObject(env, fields, s.typeArgs);
            if r.Err? {
              return;
            }
          } else if s.name == OPTION {
            var inner := ValidateOption(fields);
            if inner.Err? {
              return Err(inner.error);
            }
            if inner.value.Some? {
              if s.typeArgs == [] {
                return Err(Invariant(OptionHasInnerType));
              }
              SizeOfOption(fields, inner.value.value);
              PushOne(env, stack, Item(s.typeArgs[0], inner.value.value));
              stack := stack + [Item(s.typeArgs[0], inner.value.value)];
            }
          } else if s.name != FIXED_POINT_32 && s.name != FIXED_POINT_64 {
            return Err(Invariant(OnlyAllowedStructsReach));
          }
        case _ =>
      }
    }
    return Ok(());
  }

  lemma {:induction false} SizeAtLeast(vs: seq<MoveValue>, i: nat)
    requires i < |vs|
    ensures SizeAll(vs) >= Size(vs[i])
    decreases |vs|
  {
    if i < |vs| - 1 {
      SizeAtLeast(vs[..|vs| - 1], i);
    }
  }

  lemma SizeOfOption(fields: seq<MoveValue>, inner: MoveValue)
    requires fields != [] && fields[0] == MVector([inner])
    ensures Size(inner) < Size(MStruct(fields))
  {
    SizeAtLeast(fields, 0);
    SizeAtLeast([inner], 0);
  }

  // ----- What acceptance means for well-typed values -----

  /** Types that the type check lets through can be loaded, and so can the type of object cores. */
  predicate Loads(env: Env, tag: TypeTag) {
    match tag
    case TagVector(elem) => Loads(env, elem)
    case TagStruct(s) =>
      s.typeArgs == [] || (if s.name == OBJECT then env.coreTypeLoads && s.typeArgs[0] in env.loadable
                           else Loads(env, s.typeArgs[0]))
    case _ => true
  }

  /** Struct names alone are enough: for an allowed type and a value of it no violation can be reported. */
  lemma {:induction false} TypedIsShaped(env: Env, l: Layout, tag: TypeTag, v: MoveValue)
    requires VerdictOf(tag) == Allowed && Describes(l, tag) && Typed(v, l) && Loads(env, tag)
    ensures Shaped(env, tag, v)
    decreases v
  {
    match tag
    case TagVector(elem) =>
      forall i | 0 <= i < |v.elems| ensures Shaped(env, elem, v.elems[i]) {
        TypedIsShaped(env, l.elem, elem, v.elems[i]);
      }
    case TagStruct(s) =>
      assert Typed(v.fields[0], l.fields[0]);
      if s.name == STRING {
        TypedBytes(v.fields[0]);
      } else if s.name == OPTION {
        if |v.fields[0].elems| == 1 {
          TypedIsShaped(env, l.fields[0].elem, s.typeArgs[0], v.fields[0].elems[0]);
        }
      }
    case _ =>
  }

  predicate HasValueInvariants(l: Layout) {
    match l
    case LSigner => true
    case LVector(elem) => HasValueInvariants(elem)
    case LStruct(_, _) => true
    case _ => false
  }

  /** Where the layout has no value invariants, the check would have accepted any value. */
  lemma {:induction false} NothingToCheck(env: Env, l: Layout, tag: TypeTag, v: MoveValue)
    requires Describes(l, tag) && !HasValueInvariants(l)
    ensures Accepts(env, tag, v)
    decreases v
  {
    if tag.TagVector? && v.MVector? {
      forall i | 0 <= i < |v.elems| ensures Accepts(env, tag.elem, v.elems[i]) {
        NothingToCheck(env, l.elem, tag.elem, v.elems[i]);
      }
    }
  }

  /** Every signer in the value, however deep, is this one. */
  predicate OnlySigner(v: MoveValue, signer: AccountAddress) {
    match v
    case MSigner(a) => a == signer
    case MVector(elems) => forall i :: 0 <= i < |elems| ==> OnlySigner(elems[i], signer)
    case MStruct(fields) => forall i :: 0 <= i < |fields| ==> OnlySigner(fields[i], signer)
    case _ => true
  }

  lemma {:induction false} AcceptedSigners(env: Env, l: Layout, tag: TypeTag, v: MoveValue)
    requires VerdictOf(tag) == Allowed && Describes(l, tag) && Typed(v, l) && Accepts(env, tag, v)
    ensures OnlySigner(v, env.signer)
    decreases v
  {
    match tag
    case TagVector(elem) =>
      forall i | 0 <= i < |v.elems| ensures OnlySigner(v.elems[i], env.signer) {
        AcceptedSigners(env, l.elem, elem, v.elems[i]);
      }
    case TagStruct(s) =>
      assert Typed(v.fields[0], l.fields[0]);
      if s.name == STRING {
        TypedBytes(v.fields[0]);
        assert OnlySigner(v.fields[0], env.signer);
      } else if s.name == OPTION {
        if v.fields[0].elems != [] {
          AcceptedSigners(env, l.fields[0].elem, s.typeArgs[0], v.fields[0].elems[0]);
        }
        assert OnlySigner(v.fields[0], env.signer);
      }
    case _ =>
  }

  // ----- All arguments -----

  datatype Type = Plain(tag: TypeTag) | Reference(inner: Type)

  function StripReference(t: Type): Result<TypeTag, Cause> {
    match t
    case Plain(tag) => Ok(tag)
    case Reference(Plain(tag)) => Ok(tag)
    case Reference(_) => Err(UnsupportedNestedReference)
  }

  datatype Param = Param(ty: Type, layout: Layout)

  /** An argument as it deserialises with the layout of its parameter, if it does. */
  type Argument = Option<MoveValue>

  /** The argument passes without the shortcut for layouts that have no value invariants. */
  predicate PassesInFull(env: Env, p: Param, arg: Argument) {
    && StripReference(p.ty).Ok?
    && VerdictOf(StripReference(p.ty).value) == Allowed
    && arg.Some? && Accepts(env, StripReference(p.ty).value, arg.value)
  }

  predicate Passes(env: Env, p: Param, arg: Argument) {
    && StripReference(p.ty).Ok?
    && VerdictOf(StripReference(p.ty).value) == Allowed
    && (HasValueInvariants(p.layout) ==> arg.Some? && Accepts(env, StripReference(p.ty).value, arg.value))
  }

  /** What the virtual machine guarantees: the layout belongs to the type, the value to the layout, types load. */
  predicate WellMade(env: Env, p: Param, arg: Argument) {
    StripReference(p.ty).Ok? ==>
      && Describes(p.layout, StripReference(p.ty).value) && Loads(env, StripReference(p.ty).value)
      && (arg.Some? ==> Typed(arg.value, p.layout))
  }

  lemma WellMadeIsShaped(env: Env, p: Param, arg: Argument)
    requires StripReference(p.ty).Ok?
    ensures WellMade(env, p, arg) ==> VerdictOf(StripReference(p.ty).value) != Unreachable
    ensures WellMade(env, p, arg) && arg.Some? && VerdictOf(StripReference(p.ty).value) == Allowed ==>
      Shaped(env, StripReference(p.ty).value, arg.value)
  {
    if WellMade(env, p, arg) {
      OnlyAllowedStructs(p.layout, StripReference(p.ty).value);
      if arg.Some? && VerdictOf(StripReference(p.ty).value) == Allowed {
        TypedIsShaped(env, p.layout, StripReference(p.ty).value, arg.value);
      }
    }
  }

  /** Every argument is checked in turn; a well-made one can be refused, but never trip over the check itself. */
  method CheckArguments(env: Env, params: seq<Param>, args: seq<Argument>) returns (r: Result<(), Cause>)
    ensures r.Ok? <==> |params| == |args| && forall i :: 0 <= i < |args| ==> Passes(env, params[i], args[i])
    ensures |params| != |args| ==> r == Err(MismatchedArgumentCount)
    ensures |params| == |args| && (forall i :: 0 <= i < |args| ==> WellMade(env, params[i], args[i])) && r.Err? ==>
      !r.error.Invariant? && !r.error.Panicked?
  {
    if |params| != |args| {
      return Err(MismatchedArgumentCount);
    }
    hide Accepts, Shaped, WellMade;
    var i := 0;
    while i < |args|
      invariant 0 <= i <= |args| && forall j :: 0 <= j < i ==> Passes(env, params[j], args[j])
    {
      var p := params[i];
      var ty := StripReference(p.ty);
      if ty.Err? {
        return Err(ty.error);
      }
      WellMadeIsShaped(env, p, args[i]);
      var verdict := ValidateEntryTypeTag(ty.value);
      if verdict != Allowed {
        return Err(if verdict.Disallowed? then DisallowedEntryFunctionType else Panicked);
      }
      if HasValueInvariants(p.layout) {
        if args[i].None? {
          return Err(FailedArgumentDeserialization);
        }
        var checked := ValidateEntryValue(env, ty.value, args[i].value);
        if checked.Err? {
          return Err(checked.error);
        }
      }
      i := i + 1;
    }
    return Ok(());
  }

  /** The shortcut never changes the verdict on an argument that deserialises. */
  lemma ShortcutKeepsVerdict(env: Env, p: Param, arg: Argument)
    requires StripReference(p.ty).Ok? ==> Describes(p.layout, StripReference(p.ty).value)
    requires arg.Some?
    ensures Passes(env, p, arg) <==> PassesInFull(env, p, arg)
  {
    if StripReference(p.ty).Ok? && !HasValueInvariants(p.layout) {
      NothingToCheck(env, p.layout, StripReference(p.ty).value, arg.value);
    }
  }

  /** Whoever is a signer in an argument that passes is the sender of the transaction. */
  lemma PassedSignersAreSender(env: Env, p: Param, v: MoveValue)
    requires Passes(env, p, Some(v)) && Describes(p.layout, StripReference(p.ty).value) && Typed(v, p.layout)
    ensures OnlySigner(v, env.signer)
  {
    ShortcutKeepsVerdict(env, p, Some(v));
    AcceptedSigners(env, p.layout, StripReference(p.ty).value, v);
  }

  // ----- Scripts -----

  function GivenCount(params: seq<TypeTag>): nat {
    if params == [] then 0
    else GivenCount(params[..|params| - 1]) + (if params[|params| - 1].TagSigner? then 0 else 1)
  }

  lemma {:induction false} GivenCountPrefix(params: seq<TypeTag>, i: nat)
    requires i <= |params|
    ensures GivenCount(params[..i]) <= GivenCount(params)
    ensures i < |params| && !params[i].TagSigner? ==> GivenCount(params[..i]) < GivenCount(params)
    decreases |params|
  {
    if i < |params| {
      GivenCountPrefix(params[..|params| - 1], i);
      assert params[..|params| - 1][..i] == params[..i];
    } else {
      assert params[..i] == params;
    }
  }

  predicate AllStrip(params: seq<Type>) {
    forall i :: 0 <= i < |params| ==> StripReference(params[i]).Ok?
  }

  function Stripped(params: seq<Type>): (r: seq<TypeTag>)
    requires AllStrip(params)
    ensures |r| == |params|
  {
    seq(|params|, i requires 0 <= i < |params| => StripReference(params[i]).value)
  }

  /**
   Script arguments: the sender stands in for every signer parameter, the given arguments fill the
   others in order, and their number has to be exact. A reference to a signer is a signer parameter
   too; a reference to a reference is refused, unless the arguments have run out before it.
   */
  method AssembleScriptArguments(params: seq<Type>, given: seq<MoveValue>, signer: AccountAddress)
      returns (r: Result<seq<MoveValue>, Cause>)
    ensures r.Ok? <==> AllStrip(params) && |given| == GivenCount(Stripped(params))
    ensures r.Err? ==>
      r.error == MismatchedArgumentCount || (r.error == UnsupportedNestedReference && !AllStrip(params))
    ensures r.Ok? ==> |r.value| == |params| && forall i :: 0 <= i < |params| ==> var tags := Stripped(params);
      if tags[i].TagSigner? then r.value[i] == MSigner(signer)
      else GivenCount(tags[..i]) < |given| && r.value[i] == given[GivenCount(tags[..i])]
  {
    var result: seq<MoveValue> := [];
    var tags: seq<TypeTag> := [];
    var next := 0;
    var i := 0;
    while i < |params|
      invariant 0 <= i <= |params| && |result| == |tags| == i
      invariant forall j :: 0 <= j < i ==> StripReference(params[j]) == Ok(tags[j])
      invariant next == GivenCount(tags) <= |given|
      invariant forall j :: 0 <= j < i ==>
        if tags[j].TagSigner? then result[j] == MSigner(signer)
        else GivenCount(tags[..j]) < |given| && result[j] == given[GivenCount(tags[..j])]
    {
      var ty := StripReference(params[i]);
      if ty.Err? {
        return Err(ty.error);
      }
      var longer := tags + [ty.value];
      assert longer[..i] == tags && forall j :: 0 <= j < i ==> longer[..j] == tags[..j];
      if ty.value.TagSigner? {
        result := result + [MSigner(signer)];
      } else {
        if next == |given| {
          TooFewGiven(params, tags, i, given);
          return Err(MismatchedArgumentCount);
        }
        result := result + [given[next]];
        next := next + 1;
      }
      tags := longer;
      i := i + 1;
    }
    assert tags == Stripped(params);
    if next < |given| {
      return Err(MismatchedArgumentCount);
    }
    return Ok(result);
  }

  lemma TooFewGiven(params: seq<Type>, tags: seq<TypeTag>, i: nat, given: seq<MoveValue>)
    requires i < |params| && |tags| == i && |given| == GivenCount(tags)
    requires forall j :: 0 <= j < i ==> StripReference(params[j]) == Ok(tags[j])
    requires StripReference(params[i]).Ok? && !StripReference(params[i]).value.TagSigner?
    ensures AllStrip(params) ==> |given| < GivenCount(Stripped(params))
  {
    if AllStrip(params) {
      assert Stripped(params)[..i] == tags;
      GivenCountPrefix(Stripped(params), i);
    }
  }
}
