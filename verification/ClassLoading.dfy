/**
 Class and ClassModule (src/plugin/core/config/class_module.cc and .h, src/core/list.h): the objects
 whose file lists and properties the loader fills in place. Each method is proved against ClassIncludes.
 */
module ClassLoading {
  import opened ClassIncludes

  /** A class node of the logic-class document, with the path of its own file. */
  datatype ClassNode = ClassNode(id: string, path: string, children: seq<ClassNode>)

  /** An IClass: a List of included files with its cursor, a property manager and a parent. */
  class Class {
    var included: seq<string>
    var cursor: nat
    var properties: map<string, string>
    const parent: Class?
    ghost const line: seq<Class>
    ghost const paths: seq<string>

    /** `line` holds the ancestors, the nearest first, and `paths` the own file and theirs. */
    ghost predicate Linked()
      decreases |line|
    {
      && |paths| == |line| + 1
      && (parent == null ==> line == [])
      && (parent != null ==> line == [parent] + parent.line && parent.paths == paths[1..] && parent.Linked())
      && this !in line
    }

    constructor (path: string, parent: Class?)
      requires parent != null ==> parent.Linked()
      ensures Linked() && this.parent == parent && fresh(this)
      ensures paths == [path] + PathsFrom(parent)
      ensures View() == EMPTY
    {
      included, cursor, properties := [], 0, map[];
      this.parent := parent;
      this.line := if parent == null then [] else [parent] + parent.line;
      this.paths := [path] + PathsFrom(parent);
    }

    ghost function View(): ClassView
      reads `included, `properties
    {
      ClassView(included, properties)
    }

    /** The class is what loading its own file under its ancestors gives. */
    ghost predicate Built(files: Files, rank: Rank)
      reads `included, `properties
    {
      && Acyclic(files, rank) && "" !in files && paths != [] && Known(files, paths)
      && View() == ClassOf(files, rank, paths)
    }

    /** List::Find. */
    predicate Find(file: string)
      reads `included
    {
      file in included
    }

    /** List::Add. */
    method Add(file: string)
      modifies `included
      ensures included == old(included) + [file]
    {
      included := included + [file];
    }

    /** List::First: an empty list leaves the cursor and the caller's name alone. */
    method First(name: string) returns (file: string)
      modifies `cursor
      ensures included == [] ==> file == name && cursor == old(cursor)
      ensures included != [] ==> file == included[0] && cursor == 0
    {
      file := name;
      if |included| > 0 {
        cursor := 0;
        file := included[0];
      }
    }

    /** List::Next: past the last file the caller's name stays. */
    method Next(name: string) returns (file: string)
      modifies `cursor
      ensures cursor == if old(cursor) < |included| then old(cursor) + 1 else old(cursor)
      ensures file == if cursor < |included| then included[cursor] else name
    {
      file := name;
      if cursor < |included| {
        cursor := cursor + 1;
        if cursor < |included| {
          file := included[cursor];
        }
      }
    }
  }

  /** The `k`-th ancestor has the rest of the line and of the paths. */
  lemma {:induction false} LineTail(c: Class, k: nat)
    requires c.Linked() && k < |c.line|
    ensures c.line[k].Linked() && c.line[k].line == c.line[k + 1..] && c.line[k].paths == c.paths[k + 1..]
    decreases k
  {
    if k > 0 {
      LineTail(c.parent, k - 1);
      assert c.parent.line[k - 1] == c.line[k];
      assert c.parent.line[k..] == c.line[k + 1..];
      assert c.parent.paths[k..] == c.paths[k + 1..];
    }
  }

  /** Built ancestors have exactly the file lists AddClass is specified over. */
  lemma {:induction false} LineLists(files: Files, rank: Rank, c: Class)
    requires Acyclic(files, rank) && "" !in files && Known(files, c.paths)
    requires c.Linked() && forall i :: 0 <= i < |c.line| ==> c.line[i].Built(files, rank)
    ensures Known(files, c.paths[1..])
    ensures |Lists(files, rank, c.paths[1..])| == |c.line|
    ensures forall i :: 0 <= i < |c.line| ==> c.line[i].included == Lists(files, rank, c.paths[1..])[i]
    decreases |c.line|
  {
    if c.parent != null {
      assert forall i :: 0 <= i < |c.parent.line| ==> c.parent.line[i] == c.line[i + 1];
      LineLists(files, rank, c.parent);
    }
  }

  /** A class and its ancestors, the nearest first. */
  ghost function LineFrom(c: Class?): seq<Class> {
    if c == null then [] else [c] + c.line
  }

  ghost function PathsFrom(c: Class?): seq<string> {
    if c == null then [] else c.paths
  }

  predicate NodeKnown(files: Files, node: ClassNode) {
    node.path in files && forall i :: 0 <= i < |node.children| ==> NodeKnown(files, node.children[i])
  }

  /** The class names a node and its descendants register, each with its own file and its ancestors' files. */
  function Registered(node: ClassNode, above: seq<string>, known: map<string, seq<string>>): map<string, seq<string>>
    decreases node, 0
  {
    var own := [node.path] + above;
    RegisteredBelow(node, |node.children|, own, if node.id in known then known else known[node.id := own])
  }

  function RegisteredBelow(node: ClassNode, n: nat, above: seq<string>, known: map<string, seq<string>>)
    : map<string, seq<string>>
    requires n <= |node.children|
    decreases node, 0, n
  {
    if n == 0 then known
    else Registered(node.children[n - 1], above, RegisteredBelow(node, n - 1, above, known))
  }

  function RegisteredRoots(roots: seq<ClassNode>, known: map<string, seq<string>>): map<string, seq<string>>
    decreases |roots|
  {
    if roots == [] then known
    else Registered(roots[|roots| - 1], [], RegisteredRoots(roots[..|roots| - 1], known))
  }

  function Ids(node: ClassNode): set<string>
    decreases node, 0
  {
    {node.id} + IdsBelow(node, |node.children|)
  }

  function IdsBelow(node: ClassNode, n: nat): set<string>
    requires n <= |node.children|
    decreases node, 0, n
  {
    if n == 0 then {} else IdsBelow(node, n - 1) + Ids(node.children[n - 1])
  }

  /** Every name of the tree ends up registered, nothing else does, and the first class of a name wins. */
  lemma {:induction false} RegistersTree(node: ClassNode, above: seq<string>, known: map<string, seq<string>>)
    ensures var r := Registered(node, above, known);
      && r.Keys == known.Keys + Ids(node)
      && (forall id :: id in known ==> r[id] == known[id])
      && (node.id !in known ==> r[node.id] == [node.path] + above)
    decreases node, 0
  {
    var own := [node.path] + above;
    RegistersBelow(node, |node.children|, own, if node.id in known then known else known[node.id := own]);
  }

  lemma {:induction false} RegistersBelow(node: ClassNode, n: nat, above: seq<string>, known: map<string, seq<string>>)
    requires n <= |node.children|
    ensures var r := RegisteredBelow(node, n, above, known);
      r.Keys == known.Keys + IdsBelow(node, n) && forall id :: id in known ==> r[id] == known[id]
    decreases node, 0, n
  {
    if n > 0 {
      RegistersBelow(node, n - 1, above, known);
      RegistersTree(node.children[n - 1], above, RegisteredBelow(node, n - 1, above, known));
    }
  }

  // ------------------------------------------------------------------------------------------
  // Whose child a class is
  // ------------------------------------------------------------------------------------------

  /** A way down a tree of nodes: the place of a child, then a way down from there. */
  predicate IsAddress(node: ClassNode, at: seq<nat>)
    decreases |at|
  {
    at == [] || (at[0] < |node.children| && IsAddress(node.children[at[0]], at[1..]))
  }

  function NodeAt(node: ClassNode, at: seq<nat>): ClassNode
    requires IsAddress(node, at)
    decreases |at|
  {
    if at == [] then node else NodeAt(node.children[at[0]], at[1..])
  }

  /** The file of the node at an address, then those of the nodes on the way to it, the nearest first. */
  function PathsTo(node: ClassNode, at: seq<nat>): seq<string>
    requires IsAddress(node, at)
    decreases |at|
  {
    if at == [] then [node.path] else PathsTo(node.children[at[0]], at[1..]) + [node.path]
  }

  /** Document order: a node comes before what is below it, and before its later siblings. */
  predicate Earlier(a: seq<nat>, b: seq<nat>)
    decreases |a|
  {
    b != [] && (a == [] || a[0] < b[0] || (a[0] == b[0] && Earlier(a[1..], b[1..])))
  }

  predicate Names(node: ClassNode, at: seq<nat>, id: string) {
    IsAddress(node, at) && NodeAt(node, at).id == id
  }

  /** The node at the address is the first of its name in document order. */
  ghost predicate IsFirst(node: ClassNode, at: seq<nat>) {
    IsAddress(node, at) && forall other :: Earlier(other, at) ==> !Names(node, other, NodeAt(node, at).id)
  }

  ghost predicate DistinctNames(node: ClassNode) {
    forall a, b :: IsAddress(node, a) && IsAddress(node, b) && a != b ==> NodeAt(node, a).id != NodeAt(node, b).id
  }

  lemma {:induction false} EarlierIsOther(a: seq<nat>)
    ensures !Earlier(a, a)
    decreases |a|
  {
    if a != [] {
      EarlierIsOther(a[1..]);
    }
  }

  /** Where no two nodes have one name, every node is the first of its name. */
  lemma DistinctAreFirst(node: ClassNode, at: seq<nat>)
    requires DistinctNames(node) && IsAddress(node, at)
    ensures IsFirst(node, at)
  {
    EarlierIsOther(at);
  }

  /** The names of a tree are those of the nodes at its addresses. */
  lemma {:induction false} IdsAreNames(node: ClassNode, id: string)
    ensures id in Ids(node) <==> exists at :: Names(node, at, id)
    decreases node, 0
  {
    IdsBelowAreNames(node, |node.children|, id);
    assert Names(node, [], id) <==> node.id == id;
    assert forall at :: Names(node, at, id) ==> at == [] || NamesBelow(node, |node.children|, at, id);
  }

  predicate NamesBelow(node: ClassNode, n: nat, at: seq<nat>, id: string) {
    at != [] && at[0] < n && Names(node, at, id)
  }

  lemma {:induction false} IdsBelowAreNames(node: ClassNode, n: nat, id: string)
    requires n <= |node.children|
    ensures id in IdsBelow(node, n) <==> exists at :: NamesBelow(node, n, at, id)
    decreases node, 0, n
  {
    if n > 0 {
      var m, child := n - 1, node.children[n - 1];
      IdsBelowAreNames(node, m, id);
      IdsAreNames(child, id);
      if at :| NamesBelow(node, n, at, id) {
        assert NamesBelow(node, m, at, id) || Names(child, at[1..], id);
        assert id in IdsBelow(node, n);
      }
      if at :| NamesBelow(node, m, at, id) {
        assert NamesBelow(node, n, at, id);
      }
      if at :| Names(child, at, id) {
        assert ([m] + at)[1..] == at;
        assert NamesBelow(node, n, [m] + at, id);
      }
      assert id in IdsBelow(node, n) <==> id in IdsBelow(node, m) || id in Ids(child);
    }
  }

  /**
   The first class of a name that is not known yet is registered with its own file, then the files of
   the nodes on the way to it, its parent's first, then those above the tree.
   */
  lemma {:induction false} RegistersPaths(
      node: ClassNode, above: seq<string>, known: map<string, seq<string>>, at: seq<nat>)
    requires IsFirst(node, at) && NodeAt(node, at).id !in known
    ensures var id := NodeAt(node, at).id; var r := Registered(node, above, known);
      id in r && r[id] == PathsTo(node, at) + above
    decreases node, 0
  {
    var own := [node.path] + above;
    var more := if node.id in known then known else known[node.id := own];
    if at == [] {
      RegistersTree(node, above, known);
    } else {
      assert !Names(node, [], NodeAt(node, at).id);
      RegistersPathsBelow(node, |node.children|, own, more, at);
      assert PathsTo(node, at) + above == PathsTo(node.children[at[0]], at[1..]) + own;
    }
  }

  lemma {:induction false} RegistersPathsBelow(
      node: ClassNode, n: nat, above: seq<string>, known: map<string, seq<string>>, at: seq<nat>)
    requires at != [] && at[0] < n <= |node.children| && IsFirst(node, at) && NodeAt(node, at).id !in known
    ensures var id := NodeAt(node, at).id; var r := RegisteredBelow(node, n, above, known);
      id in r && r[id] == PathsTo(node.children[at[0]], at[1..]) + above
    decreases node, 0, n
  {
    var child, before, id := node.children[n - 1], RegisteredBelow(node, n - 1, above, known), NodeAt(node, at).id;
    if at[0] == n - 1 {
      FirstBelow(node, at);
      IdsBelowAreNames(node, n - 1, id);
      assert forall other :: NamesBelow(node, n - 1, other, id) ==> Earlier(other, at);
      RegistersBelow(node, n - 1, above, known);
      RegistersPaths(child, above, before, at[1..]);
    } else {
      RegistersPathsBelow(node, n - 1, above, known, at);
      RegistersTree(child, above, before);
    }
  }

  lemma FirstBelow(node: ClassNode, at: seq<nat>)
    requires at != [] && IsFirst(node, at)
    ensures IsFirst(node.children[at[0]], at[1..])
  {
    var child, id := node.children[at[0]], NodeAt(node, at).id;
    forall other | Earlier(other, at[1..])
      ensures !Names(child, other, id)
    {
      var longer := [at[0]] + other;
      assert longer[1..] == other;
      assert Earlier(longer, at);
      assert !Names(node, longer, id);
    }
  }

  predicate NamesIn(roots: seq<ClassNode>, i: nat, id: string) {
    i < |roots| && id in Ids(roots[i])
  }

  /** Every name of a document ends up registered, nothing else does, and what was known stays. */
  lemma {:induction false} RegistersRoots(roots: seq<ClassNode>, known: map<string, seq<string>>)
    ensures var r := RegisteredRoots(roots, known);
      && (forall id :: id in r <==> id in known || exists i :: NamesIn(roots, i, id))
      && (forall id :: id in known ==> r[id] == known[id])
    decreases |roots|
  {
    if roots != [] {
      var last := |roots| - 1;
      RegistersRoots(roots[..last], known);
      RegistersTree(roots[last], [], RegisteredRoots(roots[..last], known));
      assert forall i: nat, id :: i < last ==> NamesIn(roots[..last], i, id) == NamesIn(roots, i, id);
      assert forall id :: NamesIn(roots, last, id) <==> id in Ids(roots[last]);
    }
  }

  /** The node is the first of its name in the document. */
  ghost predicate IsFirstIn(roots: seq<ClassNode>, i: nat, at: seq<nat>) {
    && i < |roots| && IsFirst(roots[i], at)
    && forall j :: 0 <= j < i ==> NodeAt(roots[i], at).id !in Ids(roots[j])
  }

  /** In a document the files above a tree are none. */
  lemma {:induction false} RootsRegisterPaths(
      roots: seq<ClassNode>, known: map<string, seq<string>>, i: nat, at: seq<nat>)
    requires IsFirstIn(roots, i, at) && NodeAt(roots[i], at).id !in known
    ensures var id := NodeAt(roots[i], at).id; var r := RegisteredRoots(roots, known);
      id in r && r[id] == PathsTo(roots[i], at)
    decreases |roots|
  {
    var last := |roots| - 1;
    var before := RegisteredRoots(roots[..last], known);
    if i == last {
      RegistersRoots(roots[..last], known);
      assert forall j: nat :: j < last ==> !NamesIn(roots[..last], j, NodeAt(roots[i], at).id);
      RegistersPaths(roots[last], [], before, at);
      assert PathsTo(roots[i], at) + [] == PathsTo(roots[i], at);
    } else {
      assert forall j :: 0 <= j < last ==> roots[..last][j] == roots[j];
      RootsRegisterPaths(roots[..last], known, i, at);
      RegistersTree(roots[last], [], before);
    }
  }

  /** Each new class of the tree, the first of its name, has the files on the way to its node. */
  ghost predicate HasItsLine(
      node: ClassNode, above: seq<string>, known: map<string, seq<string>>, catalogue: map<string, seq<string>>)
  {
    forall at :: IsFirst(node, at) && NodeAt(node, at).id !in known ==>
      NodeAt(node, at).id in catalogue && catalogue[NodeAt(node, at).id] == PathsTo(node, at) + above
  }

  lemma TreeHasItsLine(node: ClassNode, above: seq<string>, known: map<string, seq<string>>)
    ensures HasItsLine(node, above, known, Registered(node, above, known))
  {
    forall at | IsFirst(node, at) && NodeAt(node, at).id !in known
      ensures NodeAt(node, at).id in Registered(node, above, known)
      ensures Registered(node, above, known)[NodeAt(node, at).id] == PathsTo(node, at) + above
    {
      RegistersPaths(node, above, known, at);
    }
  }

  ghost predicate HaveTheirLines(
      roots: seq<ClassNode>, known: map<string, seq<string>>, catalogue: map<string, seq<string>>)
  {
    forall i: nat, at :: IsFirstIn(roots, i, at) && NodeAt(roots[i], at).id !in known ==>
      NodeAt(roots[i], at).id in catalogue && catalogue[NodeAt(roots[i], at).id] == PathsTo(roots[i], at)
  }

  lemma RootsHaveTheirLines(roots: seq<ClassNode>, known: map<string, seq<string>>)
    ensures HaveTheirLines(roots, known, RegisteredRoots(roots, known))
  {
    forall i: nat, at | IsFirstIn(roots, i, at) && NodeAt(roots[i], at).id !in known
      ensures NodeAt(roots[i], at).id in RegisteredRoots(roots, known)
      ensures RegisteredRoots(roots, known)[NodeAt(roots[i], at).id] == PathsTo(roots[i], at)
    {
      RootsRegisterPaths(roots, known, i, at);
    }
  }

  ghost function Catalogue(classes: map<string, Class>): map<string, seq<string>> {
    map id | id in classes :: classes[id].paths
  }

  /** No name changes its class. */
  ghost predicate Kept(before: map<string, Class>, after: map<string, Class>) {
    forall id :: id in before ==> id in after && after[id] == before[id]
  }

  lemma KeptTwice(a: map<string, Class>, b: map<string, Class>, c: map<string, Class>)
    requires Kept(a, b) && Kept(b, c)
    ensures Kept(a, c)
  {
  }

  lemma CatalogueGrows(classes: map<string, Class>, id: string, c: Class)
    ensures Kept(classes, if id in classes then classes else classes[id := c])
    ensures Catalogue(if id in classes then classes else classes[id := c])
      == if id in classes then Catalogue(classes) else Catalogue(classes)[id := c.paths]
  {
  }

  class ClassModule {
    const files: Files
    ghost const rank: Rank
    var classes: map<string, Class>

    constructor (files: Files, ghost rank: Rank)
      ensures this.files == files && this.rank == rank && classes == map[]
    {
      this.files, this.rank, classes := files, rank, map[];
    }

    /** AddProperties: a name that is already declared is skipped. */
    method AddProperties(more: seq<Property>, c: Class)
      modifies c`properties
      ensures c.properties == Declared(old(c.properties), more)
    {
      var i := 0;
      while i < |more|
        invariant i <= |more|
        invariant c.properties == Declared(old(c.properties), more[..i])
      {
        assert more[..i + 1][..i] == more[..i];
        var p := more[i];
        if p.name !in c.properties {
          c.properties := c.properties[p.name := p.kind];
        }
        i := i + 1;
      }
      assert more[..i] == more;
    }

    /** AddClassInclude: false for a file already listed; its caller adds a newly read file to the list. */
    method AddClassInclude(path: string, c: Class) returns (added: bool)
      requires Acyclic(files, rank) && path in files
      modifies c`included, c`properties
      ensures added == (path !in old(c.included))
      ensures !added ==> c.View() == old(c.View())
      ensures added ==> c.View().(list := c.included + [path]) == Visit(files, rank, path, old(c.View()))
      decreases rank(path)
    {
      if c.Find(path) {
        return false;
      }
      var d := files[path];
      AddProperties(d.properties, c);
      ghost var start := c.View();
      var i := 0;
      while i < |d.includes|
        invariant i <= |d.includes|
        invariant c.View() == VisitAll(files, rank, path, i, start)
      {
        var read := AddClassInclude(d.includes[i], c);
        if read {
          c.Add(d.includes[i]);
        }
        i := i + 1;
      }
      added := true;
    }

    /** AddClassInclude followed by the Add of its caller. */
    method Include(path: string, c: Class)
      requires Acyclic(files, rank) && path in files
      modifies c`included, c`properties
      ensures c.View() == Visit(files, rank, path, old(c.View()))
    {
      var read := AddClassInclude(path, c);
      if read {
        c.Add(path);
      }
    }

    /** The inner loop of AddClass: the files of one ancestor, until one that is already listed. */
    method Inherit(ancestor: Class, c: Class)
      requires Acyclic(files, rank) && AllKnown(files, ancestor.included) && c != ancestor
      modifies c`included, c`properties, ancestor`cursor
      ensures c.View() == InheritFrom(files, rank, ancestor.included, 0, old(c.View()))
    {
      var name := ancestor.First("");
      ghost var list, i, start := ancestor.included, 0, c.View();
      while name != ""
        invariant ancestor.included == list
        invariant name != "" ==> i == ancestor.cursor < |list| && name == list[i]
        invariant i <= |list| && InheritFrom(files, rank, list, i, c.View()) == InheritFrom(files, rank, list, 0, start)
        invariant name == "" ==> InheritFrom(files, rank, list, i, c.View()) == c.View()
        decreases if name == "" then 0 else |list| - i
      {
        if c.Find(name) {
          name := "";
        } else {
          Include(name, c);
          name := ancestor.Next("");
          i := i + 1;
        }
      }
    }

    /** The outer loop of AddClass: the ancestors in turn, the nearest first. */
    method InheritLine(c: Class, ghost lists: seq<seq<string>>)
      requires c.Linked() && |lists| == |c.line|
      requires Acyclic(files, rank) && forall i :: 0 <= i < |lists| ==> AllKnown(files, lists[i])
      requires forall i :: 0 <= i < |c.line| ==> c.line[i].included == lists[i]
      modifies c`included, c`properties, c.line`cursor
      ensures c.View() == InheritAll(files, rank, lists, old(c.View()))
    {
      ghost var k := 0;
      var ancestor := c.parent;
      assert lists[0..] == lists;
      while ancestor != null
        invariant k <= |c.line| && ancestor == if k == |c.line| then null else c.line[k]
        invariant forall i :: 0 <= i < |c.line| ==> c.line[i].included == lists[i]
        invariant InheritAll(files, rank, lists[k..], c.View()) == InheritAll(files, rank, lists, old(c.View()))
        decreases |c.line| - k
      {
        assert lists[k..][1..] == lists[k + 1..] && lists[k..][0] == lists[k];
        LineTail(c, k);
        Inherit(ancestor, c);
        ancestor := ancestor.parent;
        k := k + 1;
      }
      assert lists[k..] == [];
    }

    /** AddClass: everything the ancestors list, then the class's own file. */
    method AddClass(path: string, c: Class)
      requires c.Linked() && path == c.paths[0] && c.View() == EMPTY
      requires Acyclic(files, rank) && "" !in files && Known(files, c.paths)
      requires forall i :: 0 <= i < |c.line| ==> c.line[i].Built(files, rank)
      modifies c`included, c`properties, c.line`cursor
      ensures c.Built(files, rank)
    {
      LineLists(files, rank, c);
      InheritLine(c, Lists(files, rank, c.paths[1..]));
      Include(path, c);
    }

    ghost predicate AllBuilt()
      reads `classes, classes.Values`included, classes.Values`properties
    {
      forall id :: id in classes ==> classes[id].Linked() && classes[id].Built(files, rank)
    }

    ghost predicate LineBuilt(c: Class?)
      reads LineFrom(c)`included, LineFrom(c)`properties
    {
      (c != null ==> c.Linked()) && forall i :: 0 <= i < |LineFrom(c)| ==> LineFrom(c)[i].Built(files, rank)
    }

    /** MapEx::AddElement: the first class of a name stays. */
    method AddElement(id: string, c: Class)
      requires AllBuilt() && LineBuilt(c)
      modifies `classes
      ensures AllBuilt() && LineBuilt(c)
      ensures classes == if id in old(classes) then old(classes) else old(classes)[id := c]
    {
      OwnLineBuilt(c);
      if id !in classes {
        classes := classes[id := c];
      }
    }

    /** A new class filled by AddClass. */
    method MakeClass(path: string, parent: Class?) returns (c: Class)
      requires Acyclic(files, rank) && "" !in files && path in files && LineBuilt(parent)
      modifies LineFrom(parent)`cursor
      ensures LineBuilt(c) && fresh(c) && c.line == LineFrom(parent)
      ensures c.paths == [path] + PathsFrom(parent)
    {
      c := new Class(path, parent);
      assert parent != null ==> parent == LineFrom(parent)[0];
      AddClass(path, c);
      assert LineBuilt(parent);
      LineGrows(c, parent);
    }

    /** The part of Load before its children: a new class, registered unless its name is taken. */
    method NewClass(node: ClassNode, parent: Class?) returns (c: Class)
      requires Acyclic(files, rank) && "" !in files && node.path in files && AllBuilt() && LineBuilt(parent)
      modifies `classes, LineFrom(parent)`cursor
      ensures AllBuilt() && LineBuilt(c) && fresh(c) && c.line == LineFrom(parent)
      ensures c.paths == [node.path] + PathsFrom(parent)
      ensures classes == if node.id in old(classes) then old(classes) else old(classes)[node.id := c]
    {
      c := MakeClass(node.path, parent);
      AddElement(node.id, c);
    }

    lemma OwnLineBuilt(c: Class)
      requires LineBuilt(c)
      ensures c.Linked() && c.Built(files, rank)
    {
      assert c == LineFrom(c)[0];
    }

    /** Load of one node: a new class, then the node's children under it. */
    method LoadNode(node: ClassNode, parent: Class?)
      requires Acyclic(files, rank) && "" !in files && NodeKnown(files, node) && AllBuilt() && LineBuilt(parent)
      modifies `classes, LineFrom(parent)`cursor
      ensures AllBuilt() && LineBuilt(parent) && Kept(old(classes), classes)
      ensures Catalogue(classes)
        == Registered(node, PathsFrom(parent), Catalogue(old(classes)))
      ensures HasItsLine(node, PathsFrom(parent), Catalogue(old(classes)), Catalogue(classes))
      decreases node, 1
    {
      var c := NewClass(node, parent);
      CatalogueGrows(old(classes), node.id, c);
      ghost var before := classes;
      LoadChildren(node, c);
      KeptTwice(old(classes), before, classes);
      LineOfParent(c, parent);
      TreeHasItsLine(node, PathsFrom(parent), Catalogue(old(classes)));
    }

    /** The loop of Load over a node's children. */
    method LoadChildren(node: ClassNode, c: Class)
      requires Acyclic(files, rank) && "" !in files && NodeKnown(files, node) && AllBuilt() && LineBuilt(c)
      modifies `classes, LineFrom(c)`cursor
      ensures AllBuilt() && LineBuilt(c) && Kept(old(classes), classes)
      ensures Catalogue(classes) == RegisteredBelow(node, |node.children|, c.paths, Catalogue(old(classes)))
      decreases node, 0
    {
      var i := 0;
      while i < |node.children|
        invariant i <= |node.children|
        invariant AllBuilt() && LineBuilt(c) && Kept(old(classes), classes)
        invariant Catalogue(classes) == RegisteredBelow(node, i, c.paths, Catalogue(old(classes)))
      {
        ghost var before := classes;
        LoadNode(node.children[i], c);
        KeptTwice(old(classes), before, classes);
        i := i + 1;
      }
    }

    lemma LineGrows(c: Class, parent: Class?)
      requires LineBuilt(parent) && c.Linked() && c.Built(files, rank) && c.line == LineFrom(parent)
      ensures LineBuilt(c)
    {
    }

    lemma LineOfParent(c: Class, parent: Class?)
      requires LineBuilt(c) && c.line == LineFrom(parent)
      ensures LineBuilt(parent)
    {
      assert forall i :: 0 <= i < |c.line| ==> c.line[i] == LineFrom(c)[i + 1];
      if parent != null {
        assert c.line[0] == parent;
      }
    }

    /** Load of a document: its top nodes have no parent. */
    method Load(roots: seq<ClassNode>)
      requires Acyclic(files, rank) && "" !in files && AllBuilt()
      requires forall i :: 0 <= i < |roots| ==> NodeKnown(files, roots[i])
      modifies `classes
      ensures AllBuilt() && Kept(old(classes), classes)
      ensures Catalogue(classes) == RegisteredRoots(roots, Catalogue(old(classes)))
      ensures HaveTheirLines(roots, Catalogue(old(classes)), Catalogue(classes))
    {
      var i := 0;
      while i < |roots|
        invariant i <= |roots| && AllBuilt() && Kept(old(classes), classes)
        invariant Catalogue(classes) == RegisteredRoots(roots[..i], Catalogue(old(classes)))
      {
        ghost var before := classes;
        LoadNode(roots[i], null);
        KeptTwice(old(classes), before, classes);
        assert roots[..i + 1][..i] == roots[..i];
        i := i + 1;
      }
      assert roots[..i] == roots;
      RootsHaveTheirLines(roots, Catalogue(old(classes)));
    }
  }
}
