/**
 The reply objects that hiredis.c builds for the reader, and the reply tree they stand for.
 */
module ReplyObjects {
  import opened ByteStrings
  import opened RespGrammar

  /** redisReply: its fields are set when it is created; only the element vector fills up later. */
  class ReplyObject {
    const kind: Kind
    const integer: int
    const str: Bytes
    const elements: nat
    const element: array?<ReplyObject?>

    constructor (kind: Kind, integer: int, str: Bytes, elements: nat, element: array?<ReplyObject?>)
      ensures this.kind == kind && this.integer == integer && this.str == str
      ensures this.elements == elements && this.element == element
    {
      this.kind, this.integer, this.str := kind, integer, str;
      this.elements, this.element := elements, element;
    }
  }

  /**
   redisReadTask: type (None before the type byte is read), number of slots, index in the
   parent, object under construction, and the stack slot of the parent (-1 for none).
   */
  datatype ReadTask =
    ReadTask(kind: Option<Kind>, elements: int, idx: int, obj: ReplyObject?, parent: int)

  /** The complete object `o` stands for `v`; every element vector it reaches lies in `fp`. */
  ghost predicate Rep(o: ReplyObject?, v: Reply, fp: set<array<ReplyObject?>>)
    reads fp
    decreases v, 1
  {
    o != null &&
    match v
    case Status(text) => o.kind == KStatus && o.str == text
    case Error(text) => o.kind == KError && o.str == text
    case Integer(n) => o.kind == KInteger && o.integer == n
    case Double(text) => o.kind == KDouble && o.str == text
    case Nil => o.kind == KNil
    case Bool(flag) => o.kind == KBool && o.integer == (if flag then 1 else 0)
    case Bulk(text) => o.kind == KString && o.str == text
    case Array(es) => o.kind == KArray && RepAll(o, es, fp)
    case Map(es) => o.kind == KMap && RepAll(o, es, fp)
    case Set(es) => o.kind == KSet && RepAll(o, es, fp)
  }

  ghost predicate RepAll(o: ReplyObject, es: seq<Reply>, fp: set<array<ReplyObject?>>)
    reads fp
    decreases es, 0
  {
    o.elements == |es| &&
    if es == [] then o.element == null
    else
      o.element != null && o.element in fp && o.element.Length == |es|
      && forall i :: 0 <= i < |es| ==> Rep(o.element[i], es[i], fp)
  }

  lemma {:induction false} RepGrows(o: ReplyObject?, v: Reply, fp: set<array<ReplyObject?>>, fp': set<array<ReplyObject?>>)
    requires Rep(o, v, fp) && fp <= fp'
    ensures Rep(o, v, fp')
    decreases v
  {
    if v.Array? || v.Map? || v.Set? {
      forall i | 0 <= i < |v.elements|
        ensures Rep(o.element[i], v.elements[i], fp')
      {
        RepGrows(o.element[i], v.elements[i], fp, fp');
      }
    }
  }

  /** A complete object stands for one reply only. */
  lemma {:induction false} RepUnique(o: ReplyObject?, v: Reply, w: Reply, fp: set<array<ReplyObject?>>)
    requires Rep(o, v, fp) && Rep(o, w, fp)
    ensures v == w
    decreases v
  {
    if v.Array? || v.Map? || v.Set? {
      forall i | 0 <= i < |v.elements|
        ensures v.elements[i] == w.elements[i]
      {
        RepUnique(o.element[i], v.elements[i], w.elements[i], fp);
      }
    }
  }

  /** parent->element[task->idx] = r, the last step of every builder. */
  method Link(task: ReadTask, parent: ReplyObject?, r: ReplyObject)
    requires parent != null ==>
      parent.kind.IsAggregate() && parent.element != null && 0 <= task.idx < parent.element.Length
    modifies if parent != null && parent.element != null then {parent.element} else {}
    ensures parent != null ==> parent.element[..] == old(parent.element[..])[task.idx := r]
  {
    if parent != null {
      parent.element[task.idx] := r;
    }
  }

  /** createStringObject. */
  method CreateString(task: ReadTask, parent: ReplyObject?, str: Bytes) returns (r: ReplyObject)
    requires task.kind == Some(KError) || task.kind == Some(KStatus) || task.kind == Some(KString)
    requires parent != null ==>
      parent.kind.IsAggregate() && parent.element != null && 0 <= task.idx < parent.element.Length
    modifies if parent != null && parent.element != null then {parent.element} else {}
    ensures fresh(r) && r.kind == task.kind.value && r.str == str
    ensures parent != null ==> parent.element[..] == old(parent.element[..])[task.idx := r]
  {
    r := new ReplyObject(task.kind.value, 0, str, 0, null);
    Link(task, parent, r);
  }

  /** createArrayObject: the element vector starts out zeroed. */
  method CreateArray(task: ReadTask, parent: ReplyObject?, elements: nat) returns (r: ReplyObject)
    requires task.kind.Some?
    requires parent != null ==>
      parent.kind.IsAggregate() && parent.element != null && 0 <= task.idx < parent.element.Length
    modifies if parent != null && parent.element != null then {parent.element} else {}
    ensures fresh(r) && r.kind == task.kind.value && r.elements == elements
    ensures elements == 0 ==> r.element == null
    ensures elements > 0 ==> r.element != null && fresh(r.element) && r.element.Length == elements
    ensures forall i :: 0 <= i < elements ==> r.element[i] == null
    ensures parent != null ==> parent.element[..] == old(parent.element[..])[task.idx := r]
  {
    var element: array?<ReplyObject?> := null;
    if elements > 0 {
      element := new ReplyObject?[elements](_ => null);
    }
    r := new ReplyObject(task.kind.value, 0, [], elements, element);
    Link(task, parent, r);
  }

  /** createIntegerObject. */
  method CreateInteger(task: ReadTask, parent: ReplyObject?, value: int) returns (r: ReplyObject)
    requires parent != null ==>
      parent.kind.IsAggregate() && parent.element != null && 0 <= task.idx < parent.element.Length
    modifies if parent != null && parent.element != null then {parent.element} else {}
    ensures fresh(r) && r.kind == KInteger && r.integer == value
    ensures parent != null ==> parent.element[..] == old(parent.element[..])[task.idx := r]
  {
    r := new ReplyObject(KInteger, value, [], 0, null);
    Link(task, parent, r);
  }

  /** createDoubleObject: the protocol text is kept; its numeric value follows from it. */
  method CreateDouble(task: ReadTask, parent: ReplyObject?, str: Bytes) returns (r: ReplyObject)
    requires parent != null ==>
      parent.kind.IsAggregate() && parent.element != null && 0 <= task.idx < parent.element.Length
    modifies if parent != null && parent.element != null then {parent.element} else {}
    ensures fresh(r) && r.kind == KDouble && r.str == str
    ensures parent != null ==> parent.element[..] == old(parent.element[..])[task.idx := r]
  {
    r := new ReplyObject(KDouble, 0, str, 0, null);
    Link(task, parent, r);
  }

  /** createNilObject. */
  method CreateNil(task: ReadTask, parent: ReplyObject?) returns (r: ReplyObject)
    requires parent != null ==>
      parent.kind.IsAggregate() && parent.element != null && 0 <= task.idx < parent.element.Length
    modifies if parent != null && parent.element != null then {parent.element} else {}
    ensures fresh(r) && r.kind == KNil
    ensures parent != null ==> parent.element[..] == old(parent.element[..])[task.idx := r]
  {
    r := new ReplyObject(KNil, 0, [], 0, null);
    Link(task, parent, r);
  }

  /** createBoolObject. */
  method CreateBool(task: ReadTask, parent: ReplyObject?, value: bool) returns (r: ReplyObject)
    requires parent != null ==>
      parent.kind.IsAggregate() && parent.element != null && 0 <= task.idx < parent.element.Length
    modifies if parent != null && parent.element != null then {parent.element} else {}
    ensures fresh(r) && r.kind == KBool && r.integer == (if value then 1 else 0)
    ensures parent != null ==> parent.element[..] == old(parent.element[..])[task.idx := r]
  {
    r := new ReplyObject(KBool, if value then 1 else 0, [], 0, null);
    Link(task, parent, r);
  }
}
