/** The registry of products (tom.py:166-172): every file of the walked tree
    whose name has a source extension is scanned, and each of its products
    maps its resolved path to the file's node. A later node declaring the
    same path replaces the earlier one. */
module Registry {
  import opened Wrappers
  import opened Paths
  import opened Patterns
  import opened Scanner

  /** One file that the directory walk yields: its directory, its name and
      its text. */
  datatype SourceFile = SourceFile(root: string, name: string, text: string)

  /** The `products` dictionary: product path to declaring node. */
  type Products = map<string, Node>

  /** `os.path.join(root, file)`, the path a file is scanned under. */
  function PathOf(f: SourceFile): string {
    Join(f.root, f.name)
  }

  /** The product paths a node declares. */
  function PathsOf(products: seq<Product>): set<string> {
    set k | 0 <= k < |products| :: products[k].path
  }

  predicate Declares(node: Node, path: string) {
    path in PathsOf(node.products)
  }

  /** The nodes of the walked files that have a source extension, in walk
      order; the first file whose scan fails stops everything. */
  function ScanTree(files: seq<SourceFile>, env: Environment): Result<seq<Node>, ScanError>
    decreases |files|
  {
    if |files| == 0 then Success([])
    else
      match ScanTree(files[..|files| - 1], env)
      case Failure(err) => Failure(err)
      case Success(nodes) =>
        var f := files[|files| - 1];
        if IsSourceFile(f.name) then
          match ScanDirectives(PathOf(f), Directives(f.text), env)
          case Failure(err) => Failure(err)
          case Success(node) => Success(nodes + [node])
        else Success(nodes)
  }

  /** The entries one node adds, one product after the other. */
  function RegisterProducts(m: Products, node: Node, products: seq<Product>): (r: Products)
    ensures r.Keys == m.Keys + PathsOf(products)
    ensures forall p :: p in PathsOf(products) ==> r[p] == node
    ensures forall p :: p in m && p !in PathsOf(products) ==> r[p] == m[p]
    decreases |products|
  {
    if |products| == 0 then m
    else
      var init := products[..|products| - 1];
      assert PathsOf(products) == PathsOf(init) + {products[|products| - 1].path} by {
        assert forall k :: 0 <= k < |init| ==> init[k] == products[k];
      }
      RegisterProducts(m, node, init)[products[|products| - 1].path := node]
  }

  /** The dictionary after registering `nodes` in order. */
  function RegistryOf(nodes: seq<Node>): Products
    decreases |nodes|
  {
    if |nodes| == 0 then map[]
    else
      var node := nodes[|nodes| - 1];
      RegisterProducts(RegistryOf(nodes[..|nodes| - 1]), node, node.products)
  }

  /** The scan of the tree and the filling of `products` (tom.py:166-172). */
  method BuildRegistry(files: seq<SourceFile>, env: Environment) returns (r: Result<Products, ScanError>)
    ensures ScanTree(files, env).Failure? ==> r == Failure(ScanTree(files, env).error)
    ensures ScanTree(files, env).Success? ==> r == Success(RegistryOf(ScanTree(files, env).value))
  {
    var products: Products := map[];
    ghost var nodes: seq<Node> := [];
    for i := 0 to |files|
      invariant ScanTree(files[..i], env) == Success(nodes)
      invariant products == RegistryOf(nodes)
    {
      var f := files[i];
      assert files[..i + 1][..i] == files[..i];
      var valid := HasValidExtension(f.name);
      if valid {
        var scanned := Scan(PathOf(f), f.text, env);
        if scanned.Failure? {
          ScanTreeFailurePersists(files[..i + 1], files, env);
          return Failure(scanned.error);
        }
        var node := scanned.value;
        ghost var before := products;
        for k := 0 to |node.products|
          invariant products == RegisterProducts(before, node, node.products[..k])
        {
          assert node.products[..k + 1][..k] == node.products[..k];
          products := products[node.products[k].path := node];
        }
        assert node.products[..|node.products|] == node.products;
        assert (nodes + [node])[..|nodes|] == nodes;
        nodes := nodes + [node];
      }
    }
    assert files[..|files|] == files;
    r := Success(products);
  }

  lemma {:induction false} ScanTreeFailurePersists(prefix: seq<SourceFile>, files: seq<SourceFile>, env: Environment)
    requires prefix <= files && ScanTree(prefix, env).Failure?
    ensures ScanTree(files, env) == ScanTree(prefix, env)
    decreases |files|
  {
    if |files| > |prefix| {
      var init := files[..|files| - 1];
      assert prefix <= init;
      ScanTreeFailurePersists(prefix, init, env);
    } else {
      assert prefix == files;
    }
  }

  /** The dictionary holds exactly the paths some scanned node declares. */
  lemma {:induction false} RegistryKeys(nodes: seq<Node>)
    ensures forall p :: p in RegistryOf(nodes) <==>
      exists i :: 0 <= i < |nodes| && Declares(nodes[i], p)
    decreases |nodes|
  {
    if |nodes| > 0 {
      var init := nodes[..|nodes| - 1];
      RegistryKeys(init);
      assert forall i :: 0 <= i < |init| ==> init[i] == nodes[i];
    }
  }

  /** What registering the last node does to one path. */
  lemma RegistryStep(nodes: seq<Node>, p: string)
    requires |nodes| > 0
    ensures var before := RegistryOf(nodes[..|nodes| - 1]);
      var node := nodes[|nodes| - 1];
      && (p in RegistryOf(nodes) <==> p in before || Declares(node, p))
      && (Declares(node, p) ==> RegistryOf(nodes)[p] == node)
      && (!Declares(node, p) && p in before ==> RegistryOf(nodes)[p] == before[p])
  {
    var node := nodes[|nodes| - 1];
    assert RegistryOf(nodes) == RegisterProducts(RegistryOf(nodes[..|nodes| - 1]), node, node.products);
  }

  /** The index of the last node that declares `p`, or -1. */
  function LastDeclaring(nodes: seq<Node>, p: string): (i: int)
    ensures -1 <= i < |nodes|
    ensures i >= 0 ==> Declares(nodes[i], p)
    ensures forall j :: i < j < |nodes| ==> !Declares(nodes[j], p)
    decreases |nodes|
  {
    if |nodes| == 0 then -1
    else if Declares(nodes[|nodes| - 1], p) then |nodes| - 1
    else LastDeclaring(nodes[..|nodes| - 1], p)
  }

  /** Each path maps to the last scanned node that declares it. */
  lemma {:induction false} RegistryLastWins(nodes: seq<Node>, p: string)
    requires p in RegistryOf(nodes)
    ensures LastDeclaring(nodes, p) >= 0
    ensures RegistryOf(nodes)[p] == nodes[LastDeclaring(nodes, p)]
    decreases |nodes|
  {
    assert |nodes| > 0;
    var last := |nodes| - 1;
    var init := nodes[..last];
    RegistryStep(nodes, p);
    if !Declares(nodes[last], p) {
      RegistryLastWins(init, p);
      assert LastDeclaring(nodes, p) == LastDeclaring(init, p);
      assert nodes[LastDeclaring(init, p)] == init[LastDeclaring(init, p)];
    }
  }

  /** Every entry of a registry points at a node that declares its path, so
      the build always finds a product to generate for a registered target. */
  predicate Consistent(products: Products) {
    forall p :: p in products ==> Declares(products[p], p)
  }

  lemma RegistryConsistent(nodes: seq<Node>)
    ensures Consistent(RegistryOf(nodes))
  {
    forall p | p in RegistryOf(nodes)
      ensures Declares(RegistryOf(nodes)[p], p)
    {
      RegistryLastWins(nodes, p);
    }
  }

  /** The paths of the walked files that have a source extension. */
  function SourcePaths(files: seq<SourceFile>): seq<string>
    decreases |files|
  {
    if |files| == 0 then []
    else
      var f := files[|files| - 1];
      SourcePaths(files[..|files| - 1]) + (if IsSourceFile(f.name) then [PathOf(f)] else [])
  }

  /** One node per file with a source extension, in walk order, named by
      the file's path. */
  lemma {:induction false} ScanTreeNames(files: seq<SourceFile>, env: Environment)
    requires ScanTree(files, env).Success?
    ensures |ScanTree(files, env).value| == |SourcePaths(files)|
    ensures forall i :: 0 <= i < |SourcePaths(files)| ==> ScanTree(files, env).value[i].name == SourcePaths(files)[i]
    decreases |files|
  {
    if |files| > 0 {
      var init := files[..|files| - 1];
      var f := files[|files| - 1];
      ScanTreeNames(init, env);
      if IsSourceFile(f.name) {
        ScanRequirements(PathOf(f), Directives(f.text), env);
      }
    }
  }
}
