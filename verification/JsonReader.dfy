/** The readers of json_read.c, and what they recover from the trees that the builder makes. */
module JsonReader {
  import opened Stdio
  import opened JsonTree
  import opened JsonBuilder

  /** `SsdsJsonPkg`; a null pointer is `None`. */
  datatype Pkg = Pkg(name: Option<string>, loc: Option<string>, baseUrl: Option<string>, metalink: Option<string>)

  /** `SsdsRepoInfo`. */
  datatype RepoInfo = RepoInfo(kind: int, name: string, urls: seq<string>, count: int)

  function GetString(o: JsonObject, name: string): Option<string>
    reads o
  {
    if name in o.members && o.members[name].Text? then Some(o.members[name].text) else None
  }

  function GetNull(o: JsonObject, name: string): bool
    reads o
  {
    name in o.members && o.members[name] == Null
  }

  /** The array of that name in the data object, or null. */
  function GetArray(data: JsonObject, name: string): JsonArray?
    reads data
  {
    if name in data.members && data.members[name].Array? then data.members[name].arr else null
  }

  function Length(a: JsonArray?): nat
    reads a
  {
    if a == null then 0 else |a.elements|
  }

  // ---------------------------------------------------------------- the deep search

  /** What json-glib may answer for the path `..name` below a value: any member of that name, at the top or
      further down but not below another such member. `depth` bounds how far down the search goes. */
  ghost predicate DeepMatch(v: Value, name: string, found: Value, depth: nat)
    reads *
    decreases depth
  {
    match v
    case Object(o) =>
      exists m :: m in o.members &&
        if m == name then o.members[m] == found else depth > 0 && DeepMatch(o.members[m], name, found, depth - 1)
    case Array(a) =>
      depth > 0 && exists i :: 0 <= i < |a.elements| && DeepMatch(a.elements[i], name, found, depth - 1)
    case _ => false
  }

  /** Some member of that name is met within the depth. */
  ghost predicate Contains(v: Value, name: string, depth: nat)
    reads *
    decreases depth
  {
    match v
    case Object(o) =>
      exists m :: m in o.members && (m == name || (depth > 0 && Contains(o.members[m], name, depth - 1)))
    case Array(a) => depth > 0 && exists i :: 0 <= i < |a.elements| && Contains(a.elements[i], name, depth - 1)
    case _ => false
  }

  /** A member of an object or an element of an array. */
  ghost predicate Child(v: Value, w: Value)
    reads *
  {
    (v.Object? && exists m :: m in v.obj.members && v.obj.members[m] == w) ||
    (v.Array? && exists i :: 0 <= i < |v.arr.elements| && v.arr.elements[i] == w)
  }

  /** A member of that name at the end of any way down through members and elements is found, if the search
      goes down far enough. */
  lemma {:induction false} WayDownFound(way: seq<Value>, name: string, depth: nat)
    requires 0 < |way| <= depth + 1 && forall i :: 0 <= i < |way| - 1 ==> Child(way[i], way[i + 1])
    requires way[|way| - 1].Object? && name in way[|way| - 1].obj.members
    ensures Contains(way[0], name, depth)
    decreases |way|
  {
    if |way| > 1 {
      forall i | 0 <= i < |way[1..]| - 1
        ensures Child(way[1..][i], way[1..][i + 1])
      {
        assert Child(way[i + 1], way[i + 2]);
      }
      WayDownFound(way[1..], name, depth - 1);
      assert Child(way[0], way[1]);
    }
  }

  /** The first match, in whatever order the members are kept. */
  method FirstMatch(v: Value, name: string, depth: nat) returns (r: Option<Value>)
    ensures r.Some? <==> Contains(v, name, depth)
    ensures r.Some? ==> DeepMatch(v, name, r.value, depth)
    decreases depth, 1
  {
    match v {
      case Object(o) => r := FirstMember(o, name, depth);
      case Array(a) => r := FirstElement(a, name, depth);
      case _ => r := None;
    }
  }

  method FirstMember(o: JsonObject, name: string, depth: nat) returns (r: Option<Value>)
    ensures r.Some? <==> Contains(Object(o), name, depth)
    ensures r.Some? ==> DeepMatch(Object(o), name, r.value, depth)
    decreases depth, 0
  {
    var names := o.members.Keys;
    while names != {}
      invariant names <= o.members.Keys && (name in o.members ==> name in names)
      invariant forall m :: m in o.members.Keys - names && depth > 0 ==> !Contains(o.members[m], name, depth - 1)
      decreases |names|
    {
      var m :| m in names;
      if m == name {
        return Some(o.members[m]);
      }
      if depth > 0 {
        r := FirstMatch(o.members[m], name, depth - 1);
        if r.Some? {
          return;
        }
      }
      names := names - {m};
    }
    r := None;
  }

  method FirstElement(a: JsonArray, name: string, depth: nat) returns (r: Option<Value>)
    ensures r.Some? <==> Contains(Array(a), name, depth)
    ensures r.Some? ==> DeepMatch(Array(a), name, r.value, depth)
    decreases depth, 0
  {
    var i := 0;
    while i < |a.elements| && depth > 0
      invariant 0 <= i <= |a.elements|
      invariant forall j :: 0 <= j < i && depth > 0 ==> !Contains(a.elements[j], name, depth - 1)
    {
      r := FirstMatch(a.elements[i], name, depth - 1);
      if r.Some? {
        return;
      }
      i := i + 1;
    }
    r := None;
  }

  /** The search finds nothing of that name but the member at the top. */
  ghost predicate OnlyAtTop(data: JsonObject, name: string)
    reads *
  {
    forall m, depth: nat :: m in data.members && m != name ==> !Contains(data.members[m], name, depth)
  }

  /** `ssds_js_rd_get_count`: the length of the first match if it is an array. Whoever walks the array at the
      top can rely on it where the search finds nothing else, however deep it goes. */
  method GetCount(data: JsonObject, name: string, depth: nat) returns (count: nat)
    ensures count > 0 ==> exists a :: DeepMatch(Object(data), name, Array(a), depth) && count == |a.elements|
    ensures OnlyAtTop(data, name) ==> count == Length(GetArray(data, name))
  {
    var first := FirstMatch(Object(data), name, depth);
    count := if first.Some? && first.value.Array? then |first.value.arr.elements| else 0;
    assert name in data.members ==> Contains(Object(data), name, depth);
    if first.Some? && OnlyAtTop(data, name) {
      TopMatch(data, name, first.value, depth);
    }
  }

  /** No member of that name is met within the given number of levels, and nothing lies below them. */
  ghost predicate Lacks(v: Value, name: string, levels: nat)
    reads *
    decreases levels
  {
    match v
    case Object(o) => levels > 0 && forall m :: m in o.members ==> m != name && Lacks(o.members[m], name, levels - 1)
    case Array(a) => levels > 0 && forall i :: 0 <= i < |a.elements| ==> Lacks(a.elements[i], name, levels - 1)
    case _ => true
  }

  lemma {:induction false} LacksContains(v: Value, name: string, levels: nat, depth: nat)
    requires Lacks(v, name, levels)
    ensures !Contains(v, name, depth)
    decreases levels
  {
    match v {
      case Object(o) =>
        forall m | m in o.members && depth > 0
          ensures !Contains(o.members[m], name, depth - 1)
        {
          LacksContains(o.members[m], name, levels - 1, depth - 1);
        }
      case Array(a) =>
        forall i | 0 <= i < |a.elements| && depth > 0
          ensures !Contains(a.elements[i], name, depth - 1)
        {
          LacksContains(a.elements[i], name, levels - 1, depth - 1);
        }
      case _ =>
    }
  }

  lemma TopOnly(data: JsonObject, name: string, levels: nat)
    requires forall m :: m in data.members && m != name ==> Lacks(data.members[m], name, levels)
    ensures OnlyAtTop(data, name)
  {
    forall m, depth: nat | m in data.members && m != name
      ensures !Contains(data.members[m], name, depth)
    {
      LacksContains(data.members[m], name, levels, depth);
    }
  }

  lemma {:induction false} MatchContains(v: Value, name: string, found: Value, depth: nat)
    requires DeepMatch(v, name, found, depth)
    ensures Contains(v, name, depth)
    decreases depth
  {
    match v {
      case Object(o) =>
        var m :| m in o.members &&
          if m == name then o.members[m] == found else depth > 0 && DeepMatch(o.members[m], name, found, depth - 1);
        if m != name {
          MatchContains(o.members[m], name, found, depth - 1);
        }
      case Array(a) =>
        var i :| 0 <= i < |a.elements| && DeepMatch(a.elements[i], name, found, depth - 1);
        MatchContains(a.elements[i], name, found, depth - 1);
    }
  }

  /** Then whatever the search may answer is the member at the top. */
  lemma TopMatch(data: JsonObject, name: string, found: Value, depth: nat)
    requires OnlyAtTop(data, name) && DeepMatch(Object(data), name, found, depth)
    ensures name in data.members && found == data.members[name]
  {
    if depth > 0 && exists m :: m in data.members && m != name && DeepMatch(data.members[m], name, found, depth - 1) {
      var m :| m in data.members && m != name && DeepMatch(data.members[m], name, found, depth - 1);
      MatchContains(data.members[m], name, found, depth - 1);
    }
  }

  // ---------------------------------------------------------------- answers

  /** What is read from one element of an array of packages; null when it is not an object. */
  ghost predicate Reads(p: Pkg, o: JsonObject?)
    reads o
  {
    if o == null then p == Pkg(None, None, None, None)
    else
      p.name == GetString(o, "pkg_name") && p.loc == GetString(o, "pkg_loc") &&
      if GetNull(o, "base_url") then p.baseUrl == None && p.metalink == GetString(o, "metalink")
      else p.baseUrl == GetString(o, "base_url") && p.metalink == None
  }

  /** The object at that place, or null. */
  function ObjectAt(a: JsonArray?, i: nat): JsonObject?
    reads a
  {
    if i < Length(a) && a.elements[i].Object? then a.elements[i].obj else null
  }

  /** One turn of the loop of `ssds_js_rd_parse_answer`. */
  method ReadPackage(o: JsonObject?) returns (p: Pkg)
    ensures Reads(p, o)
    ensures o == null ==> p == Pkg(None, None, None, None)
    ensures o != null ==> p.name == GetString(o, "pkg_name") && p.loc == GetString(o, "pkg_loc")
    ensures o != null && GetNull(o, "base_url") ==> p.baseUrl == None && p.metalink == GetString(o, "metalink")
    ensures o != null && !GetNull(o, "base_url") ==> p.baseUrl == GetString(o, "base_url") && p.metalink == None
  {
    p := Pkg(None, None, None, None);
    if o != null {
      p := p.(name := GetString(o, "pkg_name"), loc := GetString(o, "pkg_loc"));
      if GetNull(o, "base_url") {
        p := p.(metalink := GetString(o, "metalink"));
      } else {
        p := p.(baseUrl := GetString(o, "base_url"));
      }
    }
  }

  /** What a client learns about a package: the base URL if there is one, otherwise the repository. */
  function Seen(p: Package): Pkg {
    Pkg(Some(p.name), Some(p.loc), p.baseUrl, if p.baseUrl.None? then Some(p.repo) else None)
  }

  function SeenAll(ps: seq<Package>): (r: seq<Option<Pkg>>)
    ensures |r| == |ps| && forall i :: 0 <= i < |ps| ==> r[i] == Some(Seen(ps[i]))
  {
    seq(|ps|, i requires 0 <= i < |ps| => Some(Seen(ps[i])))
  }

  /** `ssds_js_rd_parse_answer` on any answer: an empty head, then one package for each object counted, in
      the order of the array. */
  method ParseAnswer(data: JsonObject, name: string, depth: nat) returns (ret: seq<Option<Pkg>>)
    ensures |ret| >= 1 && ret[0] == None
    ensures forall i :: 1 <= i < |ret| ==> ret[i].Some? && Reads(ret[i].value, ObjectAt(GetArray(data, name), i - 1))
    ensures OnlyAtTop(data, name) ==> |ret| == 1 + Length(GetArray(data, name))
  {
    var a := GetArray(data, name);
    var count := GetCount(data, name, depth);
    ret := [None];
    var i := 0;
    while i < count
      invariant 0 <= i <= count && |ret| == 1 + i && ret[0] == None
      invariant forall j :: 1 <= j < |ret| ==> ret[j].Some? && Reads(ret[j].value, ObjectAt(a, j - 1))
    {
      var p := ReadPackage(ObjectAt(a, i));
      ret := ret + [Some(p)];
      i := i + 1;
    }
  }

  lemma ReadsSeen(p: Pkg, o: JsonObject, package: Package)
    requires Reads(p, o) && o.members == Members(package)
    ensures p == Seen(package)
  {
  }

  /** A whole category of an answer. */
  lemma CategoryRead(ret: seq<Option<Pkg>>, a: JsonArray, os: seq<JsonObject>, ps: seq<Package>)
    requires Lists(a, os, ps) && |ret| == 1 + |ps| && ret[0] == None
    requires forall i :: 1 <= i < |ret| ==> ret[i].Some? && Reads(ret[i].value, ObjectAt(a, i - 1))
    ensures ret == [None] + SeenAll(ps)
  {
    forall i | 1 <= i < |ret|
      ensures ret[i] == Some(Seen(ps[i - 1]))
    {
      assert ObjectAt(a, i - 1) == os[i - 1];
      ReadsSeen(ret[i].value, os[i - 1], ps[i - 1]);
    }
  }

  lemma ListLacks(a: JsonArray, os: seq<JsonObject>, ps: seq<Package>, c: nat)
    requires c < 4 && Lists(a, os, ps)
    ensures Lacks(Array(a), CATEGORIES[c], 2)
  {
    forall i | 0 <= i < |a.elements|
      ensures Lacks(a.elements[i], CATEGORIES[c], 1)
    {
      assert a.elements[i] == Object(os[i]) && os[i].members == Members(ps[i]);
    }
  }

  lemma AnswerOnlyAtTop(data: JsonObject, arrays: seq<JsonArray>, objects: seq<seq<JsonObject>>, goal: Goal, c: nat)
    requires c < 4 && |arrays| == |objects| == 4 && forall m :: m in data.members ==> m in CATEGORY_NAMES
    requires forall d :: 0 <= d < 4 ==> CATEGORIES[d] in data.members && data.members[CATEGORIES[d]] == Array(arrays[d])
    requires forall d :: 0 <= d < 4 ==> Lists(arrays[d], objects[d], Reversed(ListOf(goal, d)))
    ensures OnlyAtTop(data, CATEGORIES[c])
  {
    forall m | m in data.members
      ensures Lacks(data.members[m], CATEGORIES[c], 2)
    {
      var d := if m == "install" then 0 else if m == "upgrade" then 1 else if m == "erase" then 2 else 3;
      assert m == CATEGORIES[d];
      ListLacks(arrays[d], objects[d], Reversed(ListOf(goal, d)), c);
    }
    TopOnly(data, CATEGORIES[c], 2);
  }

  /** One category of an answer that holds the four arrays and nothing else. */
  method ReadCategory(data: JsonObject, name: string, depth: nat, ghost c: nat,
                      ghost arrays: seq<JsonArray>, ghost objects: seq<seq<JsonObject>>, ghost goal: Goal)
    returns (ret: seq<Option<Pkg>>)
    requires c < 4 && |arrays| == |objects| == 4 && forall m :: m in data.members ==> m in CATEGORY_NAMES
    requires forall d :: 0 <= d < 4 ==> CATEGORIES[d] in data.members && data.members[CATEGORIES[d]] == Array(arrays[d])
    requires forall d :: 0 <= d < 4 ==> Lists(arrays[d], objects[d], Reversed(ListOf(goal, d)))
    requires name == CATEGORIES[c]
    ensures ret == [None] + SeenAll(Reversed(ListOf(goal, c)))
  {
    AnswerOnlyAtTop(data, arrays, objects, goal, c);
    ret := ParseAnswer(data, name, depth);
    CategoryRead(ret, arrays[c], objects[c], Reversed(ListOf(goal, c)));
  }

  /** An answer with the four arrays and nothing else. */
  method BuildAnswer(code: int, goal: Goal)
    returns (data: JsonObject, ghost arrays: seq<JsonArray>, ghost objects: seq<seq<JsonObject>>)
    ensures |arrays| == |objects| == 4 && forall m :: m in data.members ==> m in CATEGORY_NAMES
    ensures forall d :: 0 <= d < 4 ==> CATEGORIES[d] in data.members && data.members[CATEGORIES[d]] == Array(arrays[d])
    ensures forall d :: 0 <= d < 4 ==> Lists(arrays[d], objects[d], Reversed(ListOf(goal, d)))
  {
    var b := new Builder(code);
    arrays, objects := b.PkgsInsert(goal);
    data := b.dataObj;
    assert forall m :: m in data.members && m !in CATEGORY_NAMES ==> m in data.members - CATEGORY_NAMES;
  }

  /** From the goal of the server to the lists of the client: each category comes back with exactly its
      own packages, in reverse order behind the empty head, however deep the count looks for its array. */
  method AnswerRoundTrip(code: int, goal: Goal, depth: nat)
    returns (installs: seq<Option<Pkg>>, upgrades: seq<Option<Pkg>>, erasures: seq<Option<Pkg>>,
             obsoleted: seq<Option<Pkg>>)
    ensures |installs| == 1 + |goal.installs| && installs[0] == None
    ensures forall i :: 1 <= i < |installs| ==>
      var p := goal.installs[|goal.installs| - i];
      installs[i] == Some(Pkg(Some(p.name), Some(p.loc), p.baseUrl, if p.baseUrl.None? then Some(p.repo) else None))
    ensures |upgrades| == 1 + |goal.upgrades| && upgrades[0] == None
    ensures forall i :: 1 <= i < |upgrades| ==>
      var p := goal.upgrades[|goal.upgrades| - i];
      upgrades[i] == Some(Pkg(Some(p.name), Some(p.loc), p.baseUrl, if p.baseUrl.None? then Some(p.repo) else None))
    ensures |erasures| == 1 + |goal.erasures| && erasures[0] == None
    ensures forall i :: 1 <= i < |erasures| ==>
      var p := goal.erasures[|goal.erasures| - i];
      erasures[i] == Some(Pkg(Some(p.name), Some(p.loc), p.baseUrl, if p.baseUrl.None? then Some(p.repo) else None))
    ensures |obsoleted| == 1 + |goal.obsoleted| && obsoleted[0] == None
    ensures forall i :: 1 <= i < |obsoleted| ==>
      var p := goal.obsoleted[|goal.obsoleted| - i];
      obsoleted[i] == Some(Pkg(Some(p.name), Some(p.loc), p.baseUrl, if p.baseUrl.None? then Some(p.repo) else None))
  {
    var data;
    ghost var arrays, objects;
    data, arrays, objects := BuildAnswer(code, goal);
    installs := ReadCategory(data, "install", depth, 0, arrays, objects, goal);
    upgrades := ReadCategory(data, "upgrade", depth, 1, arrays, objects, goal);
    erasures := ReadCategory(data, "erase", depth, 2, arrays, objects, goal);
    obsoleted := ReadCategory(data, "obsolete", depth, 3, arrays, objects, goal);
    assert ListOf(goal, 0) == goal.installs && ListOf(goal, 1) == goal.upgrades;
    assert ListOf(goal, 2) == goal.erasures && ListOf(goal, 3) == goal.obsoleted;
  }

  // ---------------------------------------------------------------- requests

  function Info(r: Repo): RepoInfo {
    RepoInfo(r.kind, r.name, r.urls, |r.urls|)
  }

  function Infos(rs: seq<Repo>): (infos: seq<RepoInfo>)
    ensures |infos| == |rs| && forall i :: 0 <= i < |rs| ==> infos[i] == Info(rs[i])
  {
    seq(|rs|, i requires 0 <= i < |rs| => Info(rs[i]))
  }

  predicate AllText(a: JsonArray?)
    reads a
  {
    forall i :: 0 <= i < Length(a) ==> a.elements[i].Text?
  }

  /** `json_object_get_int_member`. */
  function GetInt(o: JsonObject, name: string): int
    reads o
  {
    if name !in o.members then 0
    else match o.members[name]
         case Number(n) => n
         case Flag(b) => if b then 1 else 0
         case _ => 0
  }

  /** The strings of an array, counted one by one. */
  method ReadTexts(a: JsonArray?) returns (texts: seq<string>, count: int)
    requires AllText(a)
    ensures count == |texts| == Length(a) && forall i :: 0 <= i < |texts| ==> a.elements[i] == Text(texts[i])
  {
    texts, count := [], 0;
    var j := 0;
    while j < Length(a)
      invariant 0 <= j <= Length(a) && |texts| == count == j
      invariant forall i :: 0 <= i < j ==> a.elements[i] == Text(texts[i])
    {
      texts := texts + [a.elements[j].text];
      count := count + 1;
      j := j + 1;
    }
  }

  lemma TextsUnique(a: JsonArray, texts: seq<string>, ss: seq<string>)
    requires a.elements == Texts(ss) && |texts| == |ss|
    requires forall i :: 0 <= i < |texts| ==> a.elements[i] == Text(texts[i])
    ensures texts == ss
  {
    forall i | 0 <= i < |texts|
      ensures texts[i] == ss[i]
    {
      assert a.elements[i] == Text(ss[i]);
    }
  }

  /** What `ssds_js_rd_repo_info` can read: it takes the length of the name and of every URL. */
  ghost predicate RepoReadable(a: JsonArray, i: nat)
    reads *
  {
    ObjectAt(a, i) != null && GetString(ObjectAt(a, i), "name").Some? && AllText(GetArray(ObjectAt(a, i), "repo_url"))
  }

  /** What it reads from one element. */
  ghost predicate RepoRead(info: RepoInfo, o: JsonObject?)
    reads *
  {
    o != null &&
    var urls := GetArray(o, "repo_url");
    info.kind == GetInt(o, "type") && Some(info.name) == GetString(o, "name") &&
    info.count == |info.urls| == Length(urls) &&
    forall j :: 0 <= j < |info.urls| ==> urls.elements[j] == Text(info.urls[j])
  }

  /** `ssds_js_rd_repo_info` on any list that it can read. */
  method ReadRepoInfo(data: JsonObject) returns (list: seq<RepoInfo>)
    requires var a := GetArray(data, "repolist"); forall i :: 0 <= i < Length(a) ==> RepoReadable(a, i)
    ensures var a := GetArray(data, "repolist");
            |list| == Length(a) && forall i :: 0 <= i < |list| ==> RepoRead(list[i], ObjectAt(a, i))
  {
    list := [];
    var a := GetArray(data, "repolist");
    var i := 0;
    while i < Length(a)
      invariant 0 <= i <= Length(a) && |list| == i
      invariant forall j :: 0 <= j < i ==> RepoRead(list[j], ObjectAt(a, j))
    {
      assert RepoReadable(a, i);
      var o := ObjectAt(a, i);
      var urls, count := ReadTexts(GetArray(o, "repo_url"));
      list := list + [RepoInfo(GetInt(o, "type"), GetString(o, "name").value, urls, count)];
      i := i + 1;
    }
  }

  lemma DescribedReadable(a: JsonArray, xs: seq<Listed>, i: nat)
    requires ListsRepos(a, xs) && i < |xs|
    ensures RepoReadable(a, i) && ObjectAt(a, i) == xs[i].obj
  {
    assert a.elements[i] == Object(xs[i].obj) && Describes(xs[i]);
  }

  lemma DescribedRead(info: RepoInfo, x: Listed)
    requires Describes(x) && RepoRead(info, x.obj)
    ensures info == Info(x.repo)
  {
    TextsUnique(x.urls, info.urls, x.repo.urls);
  }

  /** What a client puts into a request. */
  datatype Entry = PackageEntry(name: string) | RepoEntry(urls: seq<string>, name: string, kind: int)

  predicate Sound(e: Entry) {
    e.RepoEntry? && e.kind != 1 ==> e.urls != []
  }

  function PackagesOf(es: seq<Entry>): seq<string> {
    if es == [] then []
    else
      var last := es[|es| - 1];
      PackagesOf(es[..|es| - 1]) + (if last.PackageEntry? then [last.name] else [])
  }

  function ReposOf(es: seq<Entry>): seq<Repo>
    requires forall i :: 0 <= i < |es| ==> Sound(es[i])
  {
    if es == [] then []
    else
      var last := es[|es| - 1];
      assert Sound(last);
      ReposOf(es[..|es| - 1]) +
      if !last.RepoEntry? then []
      else [Repo(last.name, last.kind, if last.kind == 1 then last.urls else [last.urls[0]])]
  }

  /** The repositories among the entries, in order. */
  function RepoEntries(es: seq<Entry>): (rs: seq<Entry>)
    ensures forall r :: r in rs ==> r in es && r.RepoEntry?
  {
    if es == [] then []
    else
      var last := es[|es| - 1];
      RepoEntries(es[..|es| - 1]) + (if last.RepoEntry? then [last] else [])
  }

  lemma {:induction false} ReposAre(es: seq<Entry>)
    requires forall i :: 0 <= i < |es| ==> Sound(es[i])
    ensures |ReposOf(es)| == |RepoEntries(es)|
    ensures forall i :: 0 <= i < |RepoEntries(es)| ==>
      var e, r := RepoEntries(es)[i], ReposOf(es)[i];
      Sound(e) && e.RepoEntry? && r == Repo(e.name, e.kind, if e.kind == 1 then e.urls else [e.urls[0]])
  {
    if es != [] {
      assert Sound(es[|es| - 1]);
      ReposAre(es[..|es| - 1]);
    }
  }

  method AddEntry(b: Builder, e: Entry)
    requires b.RequestValid() && Sound(e)
    modifies b, b.dataObj, b.pkgArr, b.repoArr
    ensures b.RequestValid() && fresh(b.repr - old(b.repr))
    ensures b.packages == old(b.packages) + if e.PackageEntry? then [e.name] else []
    ensures Repos(b.repos) == Repos(old(b.repos)) +
      if e.PackageEntry? then [] else [Repo(e.name, e.kind, if e.kind == 1 then e.urls else [e.urls[0]])]
  {
    match e {
      case PackageEntry(name) => b.AddPackage(name);
      case RepoEntry(urls, name, kind) => b.AddRepo(urls, name, kind);
    }
  }

  /** Builds a request from any interleaving of repositories and packages. */
  method BuildRequest(code: int, es: seq<Entry>) returns (b: Builder)
    requires forall i :: 0 <= i < |es| ==> Sound(es[i])
    ensures fresh(b) && b.RequestValid() && b.packages == PackagesOf(es) && Repos(b.repos) == ReposOf(es)
  {
    b := new Builder(code);
    var i := 0;
    while i < |es|
      invariant 0 <= i <= |es| && fresh(b) && fresh(b.repr) && b.RequestValid()
      invariant b.packages == PackagesOf(es[..i]) && Repos(b.repos) == ReposOf(es[..i])
    {
      assert es[..i + 1][..i] == es[..i];
      AddEntry(b, es[i]);
      i := i + 1;
    }
    assert es[..i] == es;
  }

  lemma RequestOnlyAtTop(b: Builder)
    requires b.RequestValid()
    ensures OnlyAtTop(b.dataObj, "req_pkgs")
  {
    if "repolist" in b.dataObj.members {
      forall i | 0 <= i < |b.repoArr.elements|
        ensures Lacks(b.repoArr.elements[i], "req_pkgs", 2)
      {
        var x := b.repos[i];
        assert b.repoArr.elements[i] == Object(x.obj) && Describes(x);
        assert Lacks(Array(x.urls), "req_pkgs", 1);
      }
      assert Lacks(Array(b.repoArr), "req_pkgs", 3);
    }
    TopOnly(b.dataObj, "req_pkgs", 3);
  }

  /** From the client's packages and repositories to what the server reads: both come back in order and
      complete, whatever the interleaving, with the URLs that each kind of repository keeps. The number of
      packages is counted apart from them, by the deep search. */
  method RequestRoundTrip(code: int, es: seq<Entry>, depth: nat)
    returns (count: nat, packages: seq<string>, repos: seq<RepoInfo>)
    requires forall i :: 0 <= i < |es| ==> Sound(es[i])
    ensures packages == PackagesOf(es) && count == |packages| && repos == Infos(ReposOf(es))
    ensures |repos| == |RepoEntries(es)| && forall i :: 0 <= i < |repos| ==>
      var e := RepoEntries(es)[i];
      repos[i].name == e.name && repos[i].kind == e.kind && repos[i].count == |repos[i].urls| &&
      (e.kind == 1 ==> repos[i].urls == e.urls) &&
      (e.kind != 1 ==> |repos[i].urls| == 1 && |e.urls| > 0 && repos[i].urls[0] == e.urls[0])
  {
    var b := BuildRequest(code, es);
    RequestOnlyAtTop(b);
    count := GetCount(b.dataObj, "req_pkgs", depth);
    var n;
    packages, n := ReadTexts(GetArray(b.dataObj, "req_pkgs"));
    if b.pkgArr != null {
      TextsUnique(b.pkgArr, packages, b.packages);
    }
    forall i | 0 <= i < |b.repos|
      ensures RepoReadable(b.repoArr, i) && ObjectAt(b.repoArr, i) == b.repos[i].obj
    {
      DescribedReadable(b.repoArr, b.repos, i);
    }
    repos := ReadRepoInfo(b.dataObj);
    forall i | 0 <= i < |repos|
      ensures repos[i] == Infos(Repos(b.repos))[i]
    {
      DescribedRead(repos[i], b.repos[i]);
    }
    ReposAre(es);
  }
}
