// The reading half of Thrift.Protocol (thrift/lib/js/thrift.js): it takes a parsed tree apart.
module JsonReader {
  import opened Options
  import opened Wire
  import opened JsonWriter
  import J = Json

  // An entry of rstack: a tree, or once more the array that is in the entry below.
  datatype Slot = Here(tree: J.Json) | Below

  // Thrift.Protocol.RType
  function TypeOf(name: string): (t: Option<TType>)
    ensures forall u: TType :: name == Name(u) ==> t == Some(u)
  {
    match name
    case "tf" => Some(Of(BOOL))
    case "i8" => Some(Of(BYTE))
    case "i16" => Some(Of(I16))
    case "i32" => Some(Of(I32))
    case "i64" => Some(Of(I64))
    case "dbl" => Some(Of(DOUBLE))
    case "str" => Some(Of(STRING))
    case "rec" => Some(STRUCT)
    case "map" => Some(MAP)
    case "lst" => Some(LST)
    case "set" => Some(SET)
    case _ => None
  }

  // The array's head that readMapBegin and readListBegin take off: type names and a size.
  predicate HasHead(elems: seq<J.Json>, types: nat) {
    && types < |elems|
    && (forall i :: 0 <= i < types ==> elems[i].Str? && TypeOf(elems[i].text).Some?)
    && elems[types].Num?
  }

  // A field's member: its name is the id, and its value has one member, named by the type.
  predicate IsField(m: J.Member) {
    && m.value.Obj? && |m.value.members| == 1 && TypeOf(m.value.members[0].name).Some?
    && m.name == J.Numeral(J.ParseInt(m.name)) && J.ParseInt(m.name) != -1
  }

  ghost predicate FieldsOnly(tree: J.Json) {
    tree.Obj? && forall k {:trigger tree.members[k]} :: 0 <= k < |tree.members| ==> IsField(tree.members[k])
  }

  function Without<T>(s: seq<T>, i: nat): seq<T>
    requires i < |s|
  {
    s[..i] + s[i + 1..]
  }

  // What readI32 does with the value f at a place of the stack.
  ghost predicate ScalarRead(f: J.Json, i: nat, value: Option<J.Json>, place: nat, stack: seq<Slot>, stack': seq<Slot>)
    requires place < |stack|
  {
    match f
    case Arr(elems) =>
      if elems == [] then value == None && stack' == stack
      else value == Some(elems[0]) && stack' == stack[place := Here(J.Arr(elems[1..]))]
    case Obj(members) =>
      if members == [] then value == None && stack' == stack
      else
        && i < |members| && value == Some(J.Str(members[i].name))
        && stack' == stack[place := Here(J.Obj(Without(members, i)))] + [Here(members[i].value)]
    case leaf => value == Some(leaf) && stack' == stack[..|stack| - 1]
  }

  class Reader {
    var rstack: seq<Slot>
    var rpos: seq<nat>

    constructor (tree: J.Json)
      ensures rstack == [Here(tree)] && rpos == []
    {
      rstack, rpos := [Here(tree)], [];
    }

    // The message's name, type and number; its body is what is to be read. None for a text that is
    // no JSON, and for what has not all the parts of a message of version 1.
    method ReadMessageBegin(text: string) returns (head: Option<(J.Json, J.Json, J.Json)>)
      modifies this
      ensures match J.Parse(text)
              case Done(Arr(elems), "") =>
                if |elems| >= 5 && elems[0] == J.Num("1")
                then head == Some((elems[1], elems[2], elems[3])) && rstack == [Here(elems[4])] && rpos == []
                else head == None
              case _ => head == None
    {
      rstack, rpos, head := [], [], None;
      match J.Parse(text) {
        case Done(Arr(elems), "") =>
          if |elems| >= 5 && elems[0] == J.Num("1") {
            rstack := [Here(elems[4])];
            head := Some((elems[1], elems[2], elems[3]));
          }
        case _ =>
      }
    }

    // Where the value of an entry is.
    static function Place(stack: seq<Slot>, i: nat): (j: nat)
      requires i < |stack|
      ensures j <= i
    {
      if stack[i].Below? && 0 < i then Place(stack, i - 1) else i
    }

    ghost predicate Valid()
      reads this
    {
      rstack != [] ==> rstack[0].Here?
    }

    function At(i: nat): J.Json
      reads this
      requires Valid() && i < |rstack|
    {
      HereAt(rstack, i);
      rstack[Place(rstack, i)].tree
    }

    static lemma {:induction false} HereAt(stack: seq<Slot>, i: nat)
      requires i < |stack| && stack[0].Here?
      ensures stack[Place(stack, i)].Here?
    {
      if stack[i].Below? && 0 < i {
        HereAt(stack, i - 1);
      }
    }

    // In an array of structs the next one is pushed.
    method ReadStructBegin()
      requires Valid() && rstack != [] && (At(|rstack| - 1).Arr? ==> At(|rstack| - 1).elems != [])
      modifies `rstack
      ensures var top := old(At(|rstack| - 1));
              var place := Place(old(rstack), |old(rstack)| - 1);
              rstack
              == if top.Arr? then old(rstack)[place := Here(J.Arr(top.elems[1..]))] + [Here(top.elems[0])]
                 else old(rstack)
    {
      var top := At(|rstack| - 1);
      if top.Arr? {
        rstack := rstack[Place(rstack, |rstack| - 1) := Here(J.Arr(top.elems[1..]))] + [Here(top.elems[0])];
      }
    }

    method ReadStructEnd()
      requires Valid() && rstack != []
      modifies `rstack
      ensures var n := |old(rstack)|;
              rstack == if n > 1 && old(At(n - 2)).Arr? then old(rstack)[..n - 1] else old(rstack)
    {
      if |rstack| > 1 && At(|rstack| - 2).Arr? {
        rstack := rstack[..|rstack| - 1];
      }
    }

    // Any of the members that are left; what remains without it is the struct's.
    method ReadFieldBegin() returns (ftype: Option<TType>, fid: int, ghost i: nat)
      requires rstack != [] && rstack[|rstack| - 1].Here? && FieldsOnly(rstack[|rstack| - 1].tree)
      modifies this
      ensures var n := |old(rstack)|;
              var members := old(rstack)[n - 1].tree.members;
              if members == [] then ftype == None && fid == -1 && rstack == old(rstack) && rpos == old(rpos)
              else
                && i < |members| && IsField(members[i]) && fid == J.ParseInt(members[i].name)
                && ftype == TypeOf(members[i].value.members[0].name)
                && rpos == old(rpos) + [n]
                && rstack == old(rstack)[..n - 1]
                    + [Here(J.Obj(Without(members, i))), Here(members[i].value.members[0].value)]
    {
      ftype, fid, i := None, -1, 0;
      var top := |rstack| - 1;
      var members := rstack[top].tree.members;
      if members != [] {
        var k: nat :| k < |members|;
        i := k;
        assert IsField(members[k]);
        fid := J.ParseInt(members[k].name);
        rpos := rpos + [|rstack|];
        var field := members[k].value;
        rstack := rstack[top := Here(J.Obj(Without(members, k)))] + [Here(field)];
        ftype := TypeOf(field.members[0].name);
        rstack := rstack[top + 1 := Here(field.members[0].value)];
      }
    }

    method ReadFieldEnd()
      requires rpos != []
      modifies this
      ensures rpos == old(rpos)[..|old(rpos)| - 1]
      ensures var pos := old(rpos)[|old(rpos)| - 1];
              rstack == if pos <= |old(rstack)| then old(rstack)[..pos] else old(rstack)
    {
      var pos := rpos[|rpos| - 1];
      rpos := rpos[..|rpos| - 1];
      while |rstack| > pos
        invariant |rstack| <= |old(rstack)| && rstack == old(rstack)[..|rstack|]
        invariant |rstack| >= pos || |rstack| == |old(rstack)|
        invariant rpos == old(rpos)[..|old(rpos)| - 1]
      {
        rstack := rstack[..|rstack| - 1];
      }
    }

    // False where the code throws, for what is no array has no shift.
    method ReadMapBegin() returns (ok: bool, ktype: TType, vtype: TType, size: int)
      requires rstack != [] && rstack[|rstack| - 1].Here?
      requires var map_ := rstack[|rstack| - 1].tree; map_.Arr? ==> HasHead(map_.elems, 2) && 3 < |map_.elems|
      modifies this
      ensures ok <==> old(rstack[|rstack| - 1]).tree.Arr?
      ensures ok ==>
                var n := |old(rstack)|;
                var elems := old(rstack)[n - 1].tree.elems;
                && rpos == old(rpos) + [n - 1] && rstack == old(rstack)[..n - 1] + [Here(elems[3])]
                && Some(ktype) == TypeOf(elems[0].text) && Some(vtype) == TypeOf(elems[1].text)
                && size == J.ParseInt(elems[2].text)
    {
      var top := rstack[|rstack| - 1].tree;
      rstack := rstack[..|rstack| - 1];
      if !top.Arr? {
        return false, MAP, MAP, 0;
      }
      var map_ := top.elems;
      ok, size := true, J.ParseInt(map_[2].text);
      ktype, vtype := TypeOf(map_[0].text).value, TypeOf(map_[1].text).value;
      rpos := rpos + [|rstack|];
      rstack := rstack + [Here(map_[3])];
    }

    method ReadMapEnd()
      requires rpos != []
      modifies this
      ensures rpos == old(rpos)[..|old(rpos)| - 1]
      ensures var pos := old(rpos)[|old(rpos)| - 1];
              rstack == if pos <= |old(rstack)| then old(rstack)[..pos] else old(rstack)
    {
      ReadFieldEnd();
    }

    // The list stays where it is, and is pushed once more.
    method ReadListBegin() returns (ok: bool, etype: TType, size: int)
      requires Valid() && rstack != []
      requires At(|rstack| - 1).Arr? ==> HasHead(At(|rstack| - 1).elems, 1)
      modifies this
      ensures ok <==> old(At(|rstack| - 1)).Arr?
      ensures ok ==>
                var n := |old(rstack)|;
                var elems := old(At(n - 1)).elems;
                && rpos == old(rpos) + [n]
                && rstack == old(rstack)[Place(old(rstack), n - 1) := Here(J.Arr(elems[2..]))] + [Below]
                && Some(etype) == TypeOf(elems[0].text) && size == J.ParseInt(elems[1].text)
    {
      if !At(|rstack| - 1).Arr? {
        return false, LST, 0;
      }
      var list := At(|rstack| - 1).elems;
      ok, etype, size := true, TypeOf(list[0].text).value, J.ParseInt(list[1].text);
      rstack := rstack[Place(rstack, |rstack| - 1) := Here(J.Arr(list[2..]))];
      rpos := rpos + [|rstack|];
      rstack := rstack + [Below];
    }

    method ReadListEnd()
      requires rpos != []
      modifies this
      ensures rpos == old(rpos)[..|old(rpos)| - 1]
      ensures var pos := old(rpos)[|old(rpos)| - 1];
              rstack == if pos <= |old(rstack)| then old(rstack)[..pos] else old(rstack)
    {
      ReadFieldEnd();
    }

    // readI32, and with it the other numbers and strings: the next element of an array, any key
    // of an object, whose value is pushed, or the entry itself, which is popped.
    method ReadScalar() returns (value: Option<J.Json>, ghost i: nat)
      requires Valid() && rstack != []
      modifies `rstack
      ensures var n := |old(rstack)|;
              var place := Place(old(rstack), n - 1);
              ScalarRead(old(At(n - 1)), i, value, place, old(rstack), rstack)
    {
      value, i := None, 0;
      var f, place := At(|rstack| - 1), Place(rstack, |rstack| - 1);
      match f {
        case Arr(elems) =>
          if elems != [] {
            value := Some(elems[0]);
            rstack := rstack[place := Here(J.Arr(elems[1..]))];
          }
        case Obj(members) =>
          if members != [] {
            var k: nat :| k < |members|;
            i := k;
            rstack := rstack[place := Here(J.Obj(Without(members, k)))] + [Here(members[k].value)];
            value := Some(J.Str(members[k].name));
          }
        case leaf =>
          value := Some(leaf);
          rstack := rstack[..|rstack| - 1];
      }
    }
  }
}
