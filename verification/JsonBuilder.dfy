/** The builder of json_create.c: three cursors that point into a tree shared with it. */
module JsonBuilder {
  import opened Stdio
  import opened JsonTree

  /** The types of `SsdsJsInsType` with their data; a null string is `None`. */
  datatype Insert = PutText(text: Option<string>) | PutInt(number: int) | PutBool(flag: bool) | MakeArray | MakeObject

  /** The value stored for data that is not a container. */
  function Leaf(i: Insert): Value {
    match i
    case PutText(None) => Null
    case PutText(Some(s)) => Text(s)
    case PutInt(n) => Number(n)
    case PutBool(b) => Flag(b)
    case _ => Null
  }

  /** A package of a solved goal: its name, its location, the base URL of its repository if there is one,
      and the repository. */
  datatype Package = Package(name: string, loc: string, baseUrl: Option<string>, repo: string)

  /** What a solved goal asks for. */
  datatype Goal = Goal(installs: seq<Package>, upgrades: seq<Package>, erasures: seq<Package>,
                       obsoleted: seq<Package>)

  const CATEGORIES: seq<string> := ["install", "upgrade", "erase", "obsolete"]

  /** The switch over the categories. */
  function ListOf(g: Goal, c: nat): seq<Package>
    requires c < 4
  {
    if c == 0 then g.installs else if c == 1 then g.upgrades else if c == 2 then g.erasures else g.obsoleted
  }

  const CATEGORY_NAMES: set<string> := {"install", "upgrade", "erase", "obsolete"}

  datatype Repo = Repo(name: string, kind: int, urls: seq<string>)

  const BASEURL: int := 1

  /** The members of the object written for a package. */
  function Members(p: Package): map<string, Value> {
    map["pkg_name" := Text(p.name), "pkg_loc" := Text(p.loc),
        "base_url" := if p.baseUrl.Some? then Text(p.baseUrl.value) else Null, "metalink" := Text(p.repo)]
  }

  /** An array made of one object per package, in this order. */
  ghost predicate Lists(a: JsonArray, os: seq<JsonObject>, ps: seq<Package>)
    reads a, os
  {
    |os| == |ps| && a.elements == Objects(os) && forall i :: 0 <= i < |ps| ==> os[i].members == Members(ps[i])
  }

  /** A repository with the object and the array of URLs that describe it. */
  datatype Listed = Listed(obj: JsonObject, urls: JsonArray, repo: Repo)

  ghost predicate Describes(x: Listed)
    reads x.obj, x.urls
  {
    x.obj.members ==
      map["repo_url" := Array(x.urls), "name" := Text(x.repo.name), "type" := Number(x.repo.kind)] &&
    x.urls.elements == Texts(x.repo.urls)
  }

  /** The array of repositories. */
  ghost predicate ListsRepos(a: JsonArray, xs: seq<Listed>)
    reads a, set x | x in xs :: x.obj, set x | x in xs :: x.urls
  {
    |a.elements| == |xs| &&
    forall i :: 0 <= i < |xs| ==> a.elements[i] == Object(xs[i].obj) && Describes(xs[i])
  }

  function Repos(xs: seq<Listed>): (rs: seq<Repo>)
    ensures |rs| == |xs| && forall i :: 0 <= i < |xs| ==> rs[i] == xs[i].repo
  {
    seq(|xs|, i requires 0 <= i < |xs| => xs[i].repo)
  }

  class Builder {
    const dataObj: JsonObject
    var code: int
    var currObj: JsonObject?
    var currArray: JsonArray?
    var currNode: Node?
    ghost var repr: set<object>     // every container created so far
    ghost var nodes: set<Node>      // every node that was a cursor

    // what a request holds
    ghost var pkgArr: JsonArray?
    ghost var packages: seq<string>
    ghost var repoArr: JsonArray?
    ghost var repos: seq<Listed>

    /** The cursors point into the tree, and the parent of every node is older than the node. */
    ghost predicate Valid()
      reads `currObj, `currArray, `currNode, `repr, `nodes
    {
      dataObj in repr && this !in repr &&
      (currObj != null ==> currObj in repr) &&
      (currArray != null ==> currArray in repr) &&
      (currNode != null ==> currNode in nodes) &&
      (forall n :: n in nodes ==> Container(n.holds) <= repr) &&
      Aged(nodes) && (forall n :: n in nodes ==> n.birth < |nodes|)
    }

    /** What an insertion does with the value it stores: a container is new, empty and becomes the current
        one of its kind under a new cursor node; anything else leaves the cursors alone. */
    twostate predicate Placed(what: Insert, new v: Value)
      reads this, Container(v)
    {
      match what
      case MakeObject =>
        v.Object? && v.obj == currObj && fresh(v.obj) && v.obj.members == map[] &&
        currArray == old(currArray) && currNode != null && currNode.holds == v && currNode.parent == old(currNode)
      case MakeArray =>
        v.Array? && v.arr == currArray && fresh(v.arr) && v.arr.elements == [] && currObj == old(currObj) &&
        currNode != null && currNode.holds == v && currNode.parent == old(currNode)
      case PutText(text) => SameCursors() && v == if text.Some? then Text(text.value) else Null
      case PutInt(number) => SameCursors() && v == Number(number)
      case PutBool(flag) => SameCursors() && v == Flag(flag)
    }

    twostate predicate SameCursors()
      reads this
    {
      currArray == old(currArray) && currObj == old(currObj) && currNode == old(currNode)
    }

    constructor (code: int)
      ensures Valid() && RequestValid() && fresh(repr) && dataObj.members == map[] && this.code == code
      ensures packages == [] && repos == [] && currObj == null && currArray == null
      ensures currNode != null && currNode.holds == Object(dataObj) && currNode.parent == null
    {
      var data := new JsonObject();
      var node := new Node(Object(data), null, 0);
      dataObj, this.code := data, code;
      currObj, currArray, currNode := null, null, node;
      repr, nodes := {data}, {node};
      pkgArr, packages, repoArr, repos := null, [], null, [];
    }

    /** A new node becomes the cursor node. Its birth is the number of nodes before it. */
    method PushNode(holds: Value, parent: Node?)
      requires Valid() && Container(holds) <= repr && (parent != null ==> parent in nodes)
      modifies `currNode, `nodes
      ensures Valid() && currNode != null && fresh(currNode)
      ensures currNode.holds == holds && currNode.parent == parent && currNode.birth == |old(nodes)|
      ensures nodes == old(nodes) + {currNode} && |nodes| == |old(nodes)| + 1
    {
      currNode := new Node(holds, parent, |nodes|);
      assert currNode !in nodes;
      nodes := nodes + {currNode};
    }

    /** `ssds_js_cr_add_array_member`: one element behind the others in the current array. A container
        becomes the current one of its kind. */
    method AddArrayMember(what: Insert)
      requires Valid() && currArray != null
      modifies `currObj, `currArray, `currNode, `nodes, `repr, currArray
      ensures Valid() && fresh(repr - old(repr)) && old(repr) <= repr
      ensures var es, was := old(currArray).elements, old(currArray.elements);
              |es| == |was| + 1 && es[..|was|] == was && Placed(what, es[|was|])
    {
      match what {
        case MakeObject =>
          var o := new JsonObject();
          repr := repr + {o};
          currArray.Add(Object(o));
          currObj := o;
          PushNode(Object(o), currNode);
        case MakeArray =>
          var a := new JsonArray();
          repr := repr + {a};
          currArray.Add(Array(a));
          currArray := a;
          PushNode(Array(a), currNode);
        case _ => currArray.Add(Leaf(what));
      }
    }

    /** `ssds_js_cr_add_obj_member`: one member of the current object. */
    method AddObjMember(what: Insert, name: string)
      requires Valid() && currObj != null
      modifies `currObj, `currArray, `currNode, `nodes, `repr, currObj
      ensures Valid() && fresh(repr - old(repr)) && old(repr) <= repr
      ensures name in old(currObj).members
      ensures old(currObj).members == old(currObj.members)[name := old(currObj).members[name]]
      ensures Placed(what, old(currObj).members[name])
    {
      match what {
        case MakeObject =>
          var o := new JsonObject();
          repr := repr + {o};
          currObj.Set(name, Object(o));
          currObj := o;
          PushNode(Object(o), currNode);
        case MakeArray =>
          var a := new JsonArray();
          repr := repr + {a};
          currObj.Set(name, Array(a));
          currArray := a;
          PushNode(Array(a), currNode);
        case _ => currObj.Set(name, Leaf(what));
      }
    }

    /** `ssds_js_cr_new_data`: one member of the data object, except that a number goes to the current
        object instead. */
    method NewData(what: Insert, name: string)
      requires Valid() && (what.PutInt? ==> currObj != null)
      modifies `currObj, `currArray, `currNode, `nodes, `repr, if what.PutInt? then currObj else dataObj
      ensures Valid() && fresh(repr - old(repr)) && old(repr) <= repr
      ensures var target := if what.PutInt? then old(currObj) else dataObj;
        name in target.members && target.members == old(target.members)[name := target.members[name]] &&
        Placed(what, target.members[name])
    {
      match what {
        case MakeObject =>
          var o := new JsonObject();
          repr := repr + {o};
          dataObj.Set(name, Object(o));
          currObj := o;
          PushNode(Object(o), currNode);
        case MakeArray =>
          var a := new JsonArray();
          repr := repr + {a};
          dataObj.Set(name, Array(a));
          currArray := a;
          PushNode(Array(a), currNode);
        case PutInt(n) => currObj.Set(name, Number(n));
        case _ => dataObj.Set(name, Leaf(what));
      }
    }

    /** `ssds_js_cr_upper_array` and `ssds_js_cr_upper_obj` walk up to the nearest array or object. Without
        one they do not stop: they go on from the null node behind the topmost one. */
    method Climb(isArray: bool) returns (stops: bool)
      requires Valid() && currNode != null
      modifies `currNode
      ensures Valid() && (stops <==> HasAbove(nodes, old(currNode), isArray))
      ensures if stops then currNode != null && Nearest(nodes, old(currNode), currNode, isArray) else currNode == null
    {
      ghost var up, k := Ancestors(nodes, currNode), 0;
      currNode := currNode.parent;
      while currNode != null && !HoldsKind(currNode, isArray)
        invariant Valid() && k <= |up| && (currNode == null <==> k == |up|)
        invariant currNode != null ==> currNode == up[k] && up[k + 1..] == Ancestors(nodes, currNode)
        invariant up == Ancestors(nodes, old(currNode))
        invariant forall j :: 0 <= j < k ==> !HoldsKind(up[j], isArray)
        decreases |up| - k
      {
        assert up[k + 1..] == [] || up[k + 1..][1..] == up[k + 2..];
        assert currNode.parent != null ==> up[k + 1..][0] == currNode.parent;
        currNode := currNode.parent;
        k := k + 1;
      }
      stops := currNode != null;
    }

    method UpperArray() returns (stops: bool)
      requires Valid() && currNode != null
      modifies `currNode, `currArray
      ensures Valid() && (stops <==> HasAbove(nodes, old(currNode), true))
      ensures stops ==> currNode != null && Nearest(nodes, old(currNode), currNode, true)
      ensures if stops then currArray != null && currNode.holds == Array(currArray) else currArray == old(currArray)
    {
      stops := Climb(true);
      if stops {
        currArray := currNode.holds.arr;
      }
    }

    method UpperObj() returns (stops: bool)
      requires Valid() && currNode != null
      modifies `currNode, `currObj
      ensures Valid() && (stops <==> HasAbove(nodes, old(currNode), false))
      ensures stops ==> currNode != null && Nearest(nodes, old(currNode), currNode, false)
      ensures if stops then currObj != null && currNode.holds == Object(currObj) else currObj == old(currObj)
    {
      stops := Climb(false);
      if stops {
        currObj := currNode.holds.obj;
      }
    }

    // -------------------------------------------------------------- answers

    /** The object of one package at the end of the current array. */
    method InsertPackage(p: Package)
      requires Valid() && currArray != null
      modifies `currObj, `currArray, `currNode, `nodes, `repr, currArray
      ensures Valid() && fresh(repr - old(repr)) && old(repr) <= repr && currArray == old(currArray)
      ensures currObj != null && fresh(currObj) && currObj.members == Members(p)
      ensures currArray.elements == old(currArray.elements) + [Object(currObj)]
    {
      AddArrayMember(MakeObject);
      FillPackage(p);
      assert currArray.elements == old(currArray.elements) + [Object(currObj)];
    }

    /** The members of one package, in the current object. */
    method FillPackage(p: Package)
      requires Valid() && currObj != null && currObj.members == map[]
      modifies `currObj, `currArray, `currNode, `nodes, `repr, currObj
      ensures Valid() && fresh(repr - old(repr)) && old(repr) <= repr
      ensures currArray == old(currArray) && currObj == old(currObj) && old(currObj).members == Members(p)
      ensures old(currObj).members ==
        map["pkg_name" := Text(p.name), "pkg_loc" := Text(p.loc),
            "base_url" := if p.baseUrl.Some? then Text(p.baseUrl.value) else Null, "metalink" := Text(p.repo)]
    {
      AddObjMember(PutText(Some(p.name)), "pkg_name");
      AddObjMember(PutText(Some(p.loc)), "pkg_loc");
      if p.baseUrl.None? {
        AddObjMember(PutText(None), "base_url");
        AddObjMember(PutText(Some(p.repo)), "metalink");
      } else {
        AddObjMember(PutText(p.baseUrl), "base_url");
        AddObjMember(PutText(Some(p.repo)), "metalink");
      }
    }

    /** One category of `ssds_js_cr_pkgs_insert`: the packages of the goal from the last to the first,
        behind what the array may hold already. */
    method InsertCategory(name: string, ps: seq<Package>) returns (a: JsonArray, ghost os: seq<JsonObject>)
      requires Valid()
      requires name in dataObj.members ==> dataObj.members[name].Array? && dataObj.members[name].arr in repr
      modifies `currObj, `currArray, `currNode, `nodes, `repr, dataObj
      modifies if name in dataObj.members then Container(dataObj.members[name]) else {}
      ensures Valid() && fresh(repr - old(repr)) && old(repr) <= repr && a in repr && currArray == a
      ensures dataObj.members == old(dataObj.members)[name := Array(a)]
      ensures name !in old(dataObj.members) ==> fresh(a)
      ensures |os| == |ps| && forall o :: o in os ==> fresh(o) && o in repr
      ensures forall i :: 0 <= i < |ps| ==> os[i].members == Members(Reversed(ps)[i])
      ensures name !in old(dataObj.members) ==> a.elements == Objects(os)
      ensures name in old(dataObj.members) ==>
        Array(a) == old(dataObj.members[name]) && a.elements == old(dataObj.members[name].arr.elements) + Objects(os)
    {
      if name !in dataObj.members {
        NewData(MakeArray, name);
      } else {
        currArray := dataObj.members[name].arr;
      }
      a := currArray;
      os := [];
      ghost var before := a.elements;
      var i := |ps|;
      while i > 0
        invariant 0 <= i <= |ps| && Valid() && fresh(repr - old(repr)) && old(repr) <= repr
        invariant currArray == a && a in repr && a as object != dataObj
        invariant dataObj.members == old(dataObj.members)[name := Array(a)]
        invariant |os| == |ps| - i && a.elements == before + Objects(os)
        invariant forall o :: o in os ==> fresh(o) && o in repr
        invariant forall j :: 0 <= j < |os| ==> os[j].members == Members(Reversed(ps)[j])
      {
        i := i - 1;
        InsertPackage(ps[i]);
        assert Objects(os + [currObj]) == Objects(os) + [Object(currObj)];
        os := os + [currObj];
      }
    }

    /** `ssds_js_cr_pkgs_insert` on an answer that holds no packages yet. */
    method PkgsInsert(goal: Goal) returns (ghost arrays: seq<JsonArray>, ghost lists: seq<seq<JsonObject>>)
      requires Valid() && forall c :: 0 <= c < 4 ==> CATEGORIES[c] !in dataObj.members
      modifies `currObj, `currArray, `currNode, `nodes, `repr, dataObj
      ensures Valid() && fresh(repr - old(repr))
      ensures |arrays| == |lists| == 4
      ensures forall c :: 0 <= c < 4 ==>
        CATEGORIES[c] in dataObj.members && dataObj.members[CATEGORIES[c]] == Array(arrays[c])
      ensures forall c :: 0 <= c < 4 ==> Lists(arrays[c], lists[c], Reversed(ListOf(goal, c)))
      ensures "install" in dataObj.members && dataObj.members["install"] == Array(arrays[0]) &&
              Lists(arrays[0], lists[0], Reversed(goal.installs))
      ensures "upgrade" in dataObj.members && dataObj.members["upgrade"] == Array(arrays[1]) &&
              Lists(arrays[1], lists[1], Reversed(goal.upgrades))
      ensures "erase" in dataObj.members && dataObj.members["erase"] == Array(arrays[2]) &&
              Lists(arrays[2], lists[2], Reversed(goal.erasures))
      ensures "obsolete" in dataObj.members && dataObj.members["obsolete"] == Array(arrays[3]) &&
              Lists(arrays[3], lists[3], Reversed(goal.obsoleted))
      ensures dataObj.members - CATEGORY_NAMES == old(dataObj.members)
    {
      NoCategory(dataObj.members);
      arrays, lists := [], [];
      var c := 0;
      while c < 4
        invariant 0 <= c <= 4 && Valid() && fresh(repr - old(repr)) && old(repr) <= repr
        invariant |arrays| == |lists| == c
        invariant forall d :: c <= d < 4 ==> CATEGORIES[d] !in dataObj.members
        invariant forall d :: 0 <= d < c ==>
          CATEGORIES[d] in dataObj.members && dataObj.members[CATEGORIES[d]] == Array(arrays[d])
        invariant forall d :: 0 <= d < c ==> arrays[d] in repr
        invariant forall d :: 0 <= d < c ==> forall o :: o in lists[d] ==> o in repr && o != dataObj
        invariant forall d :: 0 <= d < c ==> Lists(arrays[d], lists[d], Reversed(ListOf(goal, d)))
        invariant dataObj.members - CATEGORY_NAMES == old(dataObj.members)
      {
        ghost var a, os;
        ghost var before := dataObj.members;
        a, os := InsertCategory(CATEGORIES[c], ListOf(goal, c));
        OneCategory(before, c, Array(a));
        arrays, lists := arrays + [a], lists + [os];
        c := c + 1;
      }
      assert CATEGORIES[0] == "install" && CATEGORIES[1] == "upgrade";
      assert CATEGORIES[2] == "erase" && CATEGORIES[3] == "obsolete";
    }

    // -------------------------------------------------------------- requests

    ghost predicate HoldsPackages()
      reads `pkgArr, `packages, dataObj, pkgArr
    {
      if pkgArr == null then "req_pkgs" !in dataObj.members && packages == []
      else "req_pkgs" in dataObj.members && dataObj.members["req_pkgs"] == Array(pkgArr) &&
           pkgArr.elements == Texts(packages)
    }

    ghost predicate HoldsRepos()
      reads `repoArr, `repos, dataObj, repoArr, set x | x in repos :: x.obj, set x | x in repos :: x.urls
    {
      if repoArr == null then "repolist" !in dataObj.members && repos == []
      else "repolist" in dataObj.members && dataObj.members["repolist"] == Array(repoArr) && ListsRepos(repoArr, repos)
    }

    /** The containers of a request are different from each other where one is written while another must
        stay as it is. */
    ghost predicate Apart()
      reads `pkgArr, `repoArr, `repos, `repr
    {
      (pkgArr != null ==> pkgArr in repr && pkgArr != repoArr) &&
      (repoArr != null ==> repoArr in repr) &&
      (forall x :: x in repos ==>
         x.obj in repr && x.urls in repr && x.obj != dataObj && x.urls != pkgArr && x.urls != repoArr)
    }

    ghost predicate RequestValid()
      reads this, dataObj, pkgArr, repoArr, set x | x in repos :: x.obj, set x | x in repos :: x.urls
    {
      Valid() && HoldsPackages() && HoldsRepos() && Apart() && dataObj.members.Keys <= {"req_pkgs", "repolist"}
    }

    /** The array of that name in the data object, created if need be, becomes the current one; a new
        one also becomes the cursor node, without a parent. */
    method OpenArray(name: string)
      requires Valid()
      requires name in dataObj.members ==> dataObj.members[name].Array? && dataObj.members[name].arr in repr
      modifies `currArray, `currNode, `nodes, `repr, dataObj
      ensures Valid() && fresh(repr - old(repr)) && old(repr) <= repr && currArray != null
      ensures dataObj.members == old(dataObj.members)[name := Array(currArray)]
      ensures if name in old(dataObj.members) then
                Array(currArray) == old(dataObj.members[name]) && currNode == old(currNode)
              else
                fresh(currArray) && currArray.elements == [] &&
                currNode != null && currNode.holds == Array(currArray) && currNode.parent == null
    {
      if name !in dataObj.members {
        var a := new JsonArray();
        dataObj.Set(name, Array(a));
        currArray := a;
        repr := repr + {a};
        PushNode(Array(a), null);
      } else {
        currArray := dataObj.members[name].arr;
      }
    }

    /** `ssds_js_cr_add_package`. */
    method AddPackage(package: string)
      requires RequestValid()
      modifies this, dataObj, pkgArr
      ensures RequestValid() && fresh(repr - old(repr)) && old(repr) <= repr
      ensures packages == old(packages) + [package] && repos == old(repos)
      ensures "req_pkgs" in dataObj.members && dataObj.members["req_pkgs"].Array? &&
              dataObj.members["req_pkgs"].arr.elements == Texts(packages)
    {
      OpenArray("req_pkgs");
      currArray.Add(Text(package));
      assert forall i :: 0 <= i < |repos| ==> Describes(repos[i]);
      RegisterPackage(currArray, package);
    }

    /** Takes note of a package that the tree holds already. */
    ghost method RegisterPackage(list: JsonArray, package: string)
      requires Valid() && HoldsRepos() && Apart() && list in repr && list != repoArr
      requires forall x :: x in repos ==> x.urls != list
      requires "req_pkgs" in dataObj.members && dataObj.members["req_pkgs"] == Array(list)
      requires dataObj.members.Keys <= {"req_pkgs", "repolist"}
      requires list.elements == Texts(packages) + [Text(package)]
      modifies `pkgArr, `packages
      ensures RequestValid() && packages == old(packages) + [package]
    {
      assert Texts(packages + [package]) == Texts(packages) + [Text(package)];
      pkgArr, packages := list, packages + [package];
    }

    /** The object of one repository behind the others, with an empty array for its URLs. */
    method OpenRepo(list: JsonArray) returns (o: JsonObject, urls: JsonArray)
      requires Valid() && list in repr
      modifies `currObj, `currArray, `currNode, `nodes, `repr, list
      ensures Valid() && repr == old(repr) + {o, urls} && fresh(o) && fresh(urls)
      ensures currObj == o && currArray == urls
      ensures currNode != null && currNode.holds == Array(urls) && currNode.parent == null
      ensures urls.elements == [] && o.members == map["repo_url" := Array(urls)]
      ensures list.elements == old(list.elements) + [Object(o)]
    {
      o := new JsonObject();
      list.Add(Object(o));
      currObj := o;
      urls := new JsonArray();
      o.Set("repo_url", Array(urls));
      currArray := urls;
      repr := repr + {o, urls};
      PushNode(Array(urls), null);
    }

    /** The tree operations of `ssds_js_cr_add_repo`. */
    method WriteRepo(urls: seq<string>, name: string, kind: int) returns (list: JsonArray, x: Listed)
      requires Valid() && (kind != 1 ==> urls != [])
      requires "repolist" in dataObj.members ==>
        dataObj.members["repolist"].Array? && dataObj.members["repolist"].arr in repr
      modifies `currObj, `currArray, `currNode, `nodes, `repr, dataObj
      modifies if "repolist" in dataObj.members then Container(dataObj.members["repolist"]) else {}
      ensures Valid() && fresh(repr - old(repr)) && old(repr) + {list, x.obj, x.urls} <= repr
      ensures fresh(x.obj) && fresh(x.urls) && x.urls != list
      ensures x.repo == Repo(name, kind, if kind == 1 then urls else [urls[0]]) && Describes(x)
      ensures x.obj.members == map["repo_url" := Array(x.urls), "name" := Text(name), "type" := Number(kind)]
      ensures currObj == x.obj && currArray == x.urls
      ensures currNode != null && currNode.holds == Array(x.urls) && currNode.parent == null
      ensures x.urls.elements == if kind == 1 then Texts(urls) else [Text(urls[0])]
      ensures dataObj.members == old(dataObj.members)["repolist" := Array(list)]
      ensures if "repolist" in old(dataObj.members)
              then Array(list) == old(dataObj.members["repolist"]) &&
                   list.elements == old(dataObj.members["repolist"].arr.elements) + [Object(x.obj)]
              else fresh(list) && list.elements == [Object(x.obj)]
    {
      OpenArray("repolist");
      list := currArray;
      var o, a := OpenRepo(list);
      AddUrls(a, urls, kind);
      o.Set("name", Text(name));
      o.Set("type", Number(kind));
      x := Listed(o, a, Repo(name, kind, if kind == BASEURL then urls else [urls[0]]));
      assert kind != 1 ==> Texts([urls[0]]) == [Text(urls[0])];
    }

    /** Takes note of a repository that the tree describes already. */
    ghost method Register(list: JsonArray, x: Listed)
      requires Valid() && HoldsPackages() && Apart() && list in repr && (repoArr == null || repoArr == list)
      requires "repolist" in dataObj.members && dataObj.members["repolist"] == Array(list)
      requires dataObj.members.Keys <= {"req_pkgs", "repolist"}
      requires |list.elements| == |repos| + 1 && list.elements[|repos|] == Object(x.obj) && Describes(x)
      requires forall i :: 0 <= i < |repos| ==> list.elements[i] == Object(repos[i].obj) && Describes(repos[i])
      requires list != pkgArr && forall y :: y in repos ==> y.urls != list
      requires x.obj in repr && x.urls in repr && x.obj != dataObj && x.urls != pkgArr && x.urls != list
      modifies `repoArr, `repos
      ensures RequestValid() && repos == old(repos) + [x] && Repos(repos) == Repos(old(repos)) + [x.repo]
    {
      repoArr, repos := list, repos + [x];
    }

    /** `ssds_js_cr_add_repo`: all URLs of a repository with base URLs, the first one of any other. */
    method AddRepo(urls: seq<string>, name: string, kind: int)
      requires RequestValid() && (kind != 1 ==> urls != [])
      modifies this, dataObj, repoArr
      ensures RequestValid() && fresh(repr - old(repr)) && old(repr) <= repr
      ensures packages == old(packages)
      ensures Repos(repos) == Repos(old(repos)) + [Repo(name, kind, if kind == 1 then urls else [urls[0]])]
    {
      var list, x := WriteRepo(urls, name, kind);
      assert list != pkgArr;
      assert forall i :: 0 <= i < |repos| ==> list.elements[i] == Object(repos[i].obj) && Describes(repos[i]);
      Register(list, x);
    }
  }

  method AddUrls(a: JsonArray, urls: seq<string>, kind: int)
    requires kind != 1 ==> urls != []
    modifies a
    ensures a.elements == old(a.elements) + if kind == 1 then Texts(urls) else [Text(urls[0])]
  {
    if kind == BASEURL {
      var i := 0;
      while i < |urls|
        invariant 0 <= i <= |urls| && a.elements == old(a.elements) + Texts(urls[..i])
      {
        assert Texts(urls[..i + 1]) == Texts(urls[..i]) + [Text(urls[i])];
        a.Add(Text(urls[i]));
        i := i + 1;
      }
      assert urls[..i] == urls;
    } else {
      a.Add(Text(urls[0]));
    }
  }

  lemma NoCategory(members: map<string, Value>)
    requires forall c :: 0 <= c < 4 ==> CATEGORIES[c] !in members
    ensures members - CATEGORY_NAMES == members
  {
    assert CATEGORIES[0] !in members && CATEGORIES[1] !in members;
    assert CATEGORIES[2] !in members && CATEGORIES[3] !in members;
  }

  lemma OneCategory(members: map<string, Value>, c: nat, v: Value)
    requires c < 4
    ensures members[CATEGORIES[c] := v] - CATEGORY_NAMES == members - CATEGORY_NAMES
  {
  }

  predicate HoldsKind(n: Node, isArray: bool) {
    if isArray then n.holds.Array? else n.holds.Object?
  }

  /** Every recorded parent is older, so the chain of parents has an end. */
  ghost predicate Aged(nodes: set<Node>) {
    forall n :: n in nodes && n.parent != null ==> n.parent in nodes && n.parent.birth < n.birth
  }

  /** The ancestors of a node, nearest first. */
  ghost function Ancestors(nodes: set<Node>, n: Node): seq<Node>
    requires Aged(nodes) && n in nodes
    decreases n.birth
  {
    if n.parent == null then [] else [n.parent] + Ancestors(nodes, n.parent)
  }

  /** Every ancestor is strictly older than the node, so no node is met again on the way up. */
  lemma {:induction false} AncestorsOlder(nodes: set<Node>, n: Node)
    requires Aged(nodes) && n in nodes
    ensures forall k :: 0 <= k < |Ancestors(nodes, n)| ==>
      Ancestors(nodes, n)[k] in nodes && Ancestors(nodes, n)[k].birth < n.birth
    ensures n !in Ancestors(nodes, n)
    decreases n.birth
  {
    if n.parent != null {
      AncestorsOlder(nodes, n.parent);
    }
  }

  ghost predicate HasAbove(nodes: set<Node>, n: Node, isArray: bool)
    requires Aged(nodes) && n in nodes
  {
    exists k :: 0 <= k < |Ancestors(nodes, n)| && HoldsKind(Ancestors(nodes, n)[k], isArray)
  }

  /** `m` is the nearest ancestor of `n` that holds a container of the kind asked for. */
  ghost predicate Nearest(nodes: set<Node>, n: Node, m: Node, isArray: bool)
    requires Aged(nodes) && n in nodes
  {
    HoldsKind(m, isArray) &&
    exists k :: 0 <= k < |Ancestors(nodes, n)| && Ancestors(nodes, n)[k] == m &&
      forall j :: 0 <= j < k ==> !HoldsKind(Ancestors(nodes, n)[j], isArray)
  }
}
