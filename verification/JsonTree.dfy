/** The tree of json-glib as far as json_create.c and json_read.c use it: arrays and objects that are
    shared by reference and changed in place. */
module JsonTree {
  import opened Stdio

  datatype Value = Text(text: string) | Null | Number(number: int) | Flag(flag: bool)
                 | Array(arr: JsonArray) | Object(obj: JsonObject)

  class JsonArray {
    var elements: seq<Value>

    constructor ()
      ensures elements == []
    {
      elements := [];
    }

    method Add(v: Value)
      modifies this
      ensures elements == old(elements) + [v]
    {
      elements := elements + [v];
    }
  }

  class JsonObject {
    var members: map<string, Value>

    constructor ()
      ensures members == map[]
    {
      members := map[];
    }

    method Set(name: string, v: Value)
      modifies this
      ensures members == old(members)[name := v]
    {
      members := members[name := v];
    }
  }

  /** The node that the builder keeps for the container it created last. `json_node_set_parent` is called
      once, right after its creation. */
  class Node {
    const holds: Value
    const parent: Node?
    ghost const birth: nat   // how many nodes were there before

    constructor (holds: Value, parent: Node?, ghost birth: nat)
      ensures this.holds == holds && this.parent == parent && this.birth == birth
    {
      this.holds, this.parent, this.birth := holds, parent, birth;
    }
  }

  function Texts(ss: seq<string>): (vs: seq<Value>)
    ensures |vs| == |ss| && forall i :: 0 <= i < |ss| ==> vs[i] == Text(ss[i])
  {
    seq(|ss|, i requires 0 <= i < |ss| => Text(ss[i]))
  }

  function Objects(os: seq<JsonObject>): (vs: seq<Value>)
    ensures |vs| == |os| && forall i :: 0 <= i < |os| ==> vs[i] == Object(os[i])
  {
    seq(|os|, i requires 0 <= i < |os| => Object(os[i]))
  }

  function Reversed<T>(s: seq<T>): (r: seq<T>)
    ensures |r| == |s| && forall i :: 0 <= i < |s| ==> r[i] == s[|s| - 1 - i]
  {
    seq(|s|, i requires 0 <= i < |s| => s[|s| - 1 - i])
  }

  /** The container a value refers to. */
  ghost function Container(v: Value): set<object> {
    match v
    case Array(a) => {a}
    case Object(o) => {o}
    case _ => {}
  }
}
