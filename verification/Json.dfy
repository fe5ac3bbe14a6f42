/** JSON values as the source's library holds them: an object keeps its members in the order they
    were inserted. */
module Json {
  import opened Wrappers
  import opened Octets
  import opened Sorting

  datatype Numeral = Unsigned(n: nat) | Negative(below: int) | Fraction(digits: string)

  datatype Member = Member(name: string, value: Value)

  datatype Value =
    | Null
    | Bool(b: bool)
    | Number(number: Numeral)
    | Text(text: string)
    | Array(items: seq<Value>)
    | Object(members: seq<Member>)

  function Names(members: seq<Member>): (r: seq<string>)
    ensures |r| == |members|
    ensures forall i :: 0 <= i < |members| ==> r[i] == members[i].name
  {
    seq(|members|, i requires 0 <= i < |members| => members[i].name)
  }

  /** What the library's own type guarantees: no object has two members of one name. */
  ghost predicate WellFormed(v: Value)
    decreases v
  {
    match v
    case Array(items) => forall i :: 0 <= i < |items| ==> WellFormed(items[i])
    case Object(members) =>
      && Distinct(Names(members))
      && forall i :: 0 <= i < |members| ==> WellFormed(members[i].value)
    case _ => true
  }

  function Find(members: seq<Member>, name: string): (r: Option<nat>)
    ensures r.Some? ==> r.value < |members| && members[r.value].name == name
    ensures r.Some? ==> forall i :: 0 <= i < r.value ==> members[i].name != name
    ensures r.None? ==> forall i :: 0 <= i < |members| ==> members[i].name != name
  {
    if members == [] then None
    else if members[0].name == name then Some(0)
    else
      match Find(members[1..], name)
      case Some(i) => Some(i + 1)
      case None => None
  }

  /** `obj.get(name)` */
  function Get(members: seq<Member>, name: string): Option<Value> {
    match Find(members, name)
    case Some(i) => Some(members[i].value)
    case None => None
  }

  /** `obj.insert(name, value)`: a present name keeps its place. */
  function Put(members: seq<Member>, name: string, value: Value): (r: seq<Member>)
    ensures r != []
  {
    match Find(members, name)
    case Some(i) => members[i := Member(name, value)]
    case None => members + [Member(name, value)]
  }

  /** Reading after inserting sees the new value there and the old ones elsewhere. */
  lemma GetAfterPut(members: seq<Member>, name: string, value: Value, other: string)
    ensures Get(Put(members, name, value), other) == if other == name then Some(value) else Get(members, other)
  {
    match Find(members, name)
    case Some(i) =>
      if other == name {
        FindFirst(members[i := Member(name, value)], i);
      } else {
        GetAfterUpdate(members, i, value, other);
      }
    case None =>
      if other == name {
        FindFirst(members + [Member(name, value)], |members|);
      } else {
        GetAfterAppend(members, Member(name, value), other);
      }
  }

  lemma {:induction false} FindFirst(members: seq<Member>, i: nat)
    requires i < |members| && forall j :: 0 <= j < i ==> members[j].name != members[i].name
    ensures Find(members, members[i].name) == Some(i)
  {
  }

  lemma {:induction false} GetAfterUpdate(members: seq<Member>, i: nat, value: Value, other: string)
    requires i < |members| && members[i].name != other
    ensures Get(members[i := Member(members[i].name, value)], other) == Get(members, other)
  {
    var after := members[i := Member(members[i].name, value)];
    match Find(members, other)
    case Some(j) =>
      assert forall k :: 0 <= k < j ==> after[k].name == members[k].name;
      FindFirst(after, j);
    case None =>
      assert forall k :: 0 <= k < |after| ==> after[k].name == members[k].name;
  }

  lemma {:induction false} GetAfterAppend(members: seq<Member>, m: Member, other: string)
    requires m.name != other
    ensures Get(members + [m], other) == Get(members, other)
  {
    match Find(members, other)
    case Some(j) =>
      FindFirst(members + [m], j);
    case None =>
      assert forall k :: 0 <= k < |members + [m]| ==> (members + [m])[k].name != other;
  }

  lemma PutWellFormed(members: seq<Member>, name: string, value: Value)
    requires WellFormed(Object(members)) && WellFormed(value)
    ensures WellFormed(Object(Put(members, name, value)))
  {
    var r := Put(members, name, value);
    forall i, j | 0 <= i < j < |r| ensures Names(r)[i] != Names(r)[j] {
      assert i < |members| && j < |members| ==> Names(members)[i] != Names(members)[j];
    }
  }

  /** `as_str`, `as_bool` and `as_u64` */
  function AsText(v: Value): Option<string> {
    if v.Text? then Some(v.text) else None
  }

  function AsBool(v: Value): Option<bool> {
    if v.Bool? then Some(v.b) else None
  }

  function AsU64(v: Value): Option<nat> {
    if v.Number? && v.number.Unsigned? then Some(v.number.n) else None
  }

  function TextMember(members: seq<Member>, name: string): Option<string> {
    match Get(members, name)
    case Some(v) => AsText(v)
    case None => None
  }

  /** The library's printer and parser, and reading octets as UTF-8 text. */
  datatype Codec = Codec(write: Value -> Octets, parse: Octets -> Option<Value>, text: Octets -> Option<string>) {
    /** Printing a value gives text that parses back to it. */
    ghost predicate Laws() {
      forall v: Value :: WellFormed(v) ==> this.parse(this.write(v)) == Some(v) && this.text(this.write(v)).Some?
    }
  }
}
