/** The incremental build (`build`, tom.py:102-136) and `clean`
    (tom.py:187-191) over a modelled file system. A file is present when it
    has a modification time; `os.system` is replaced by a given function
    that says how a command changes the files, so the model holds for any
    behaviour of the commands. */
module Build {
  import opened Wrappers
  import opened Strings
  import opened Paths
  import opened Scanner
  import opened Registry

  /** The files on disk with their modification times. */
  type Files = map<string, int>

  /** The effect of `os.system`: from the number of commands run before,
      the command and the files before it runs, the files after it. */
  type Runner = (nat, string, Files) -> Files

  /** The files, and the commands executed so far, in order. */
  datatype Disk = Disk(files: Files, executed: seq<string>)

  /** `OutOfFuel` stands for the recursion that does not end (on cyclic
      requirements, or on an absolute target); `MissingFile` for the error
      that `os.path.getmtime` or `os.remove` raises on an absent file. */
  datatype BuildError = OutOfFuel | MissingFile(path: string)

  datatype Outcome = Outcome(result: Result<nat, BuildError>, disk: Disk)

  /** Running a command: the runner changes the files and the command is
      recorded. */
  function Execute(d: Disk, command: string, run: Runner): (d': Disk)
    ensures d'.executed == d.executed + [command]
  {
    Disk(run(|d.executed|, command, d.files), d.executed + [command])
  }

  /** The first product whose path is `target` (the loop with `break` at
      tom.py:126-132). */
  function FindProduct(products: seq<Product>, target: string): (r: Option<Product>)
    ensures r.Some? ==> exists k ::
      && 0 <= k < |products| && products[k] == r.value && r.value.path == target
      && forall j :: 0 <= j < k ==> products[j].path != target
    ensures r.None? <==> target !in PathsOf(products)
    decreases |products|
  {
    if |products| == 0 then None
    else if products[0].path == target then Some(products[0])
    else
      var r := FindProduct(products[1..], target);
      assert PathsOf(products) == {products[0].path} + PathsOf(products[1..]) by {
        forall p | p in PathsOf(products)
          ensures p in {products[0].path} + PathsOf(products[1..])
        {
          var k :| 0 <= k < |products| && products[k].path == p;
          if k > 0 {
            assert products[1..][k - 1] == products[k];
          }
        }
      }
      if r.Some? then
        assert exists k ::
          && 0 <= k < |products| && products[k] == r.value && r.value.path == target
          && forall j :: 0 <= j < k ==> products[j].path != target by {
          var k :| 0 <= k < |products[1..]| && products[1..][k] == r.value &&
            forall j :: 0 <= j < k ==> products[1..][j].path != target;
          assert products[k + 1] == r.value;
          assert forall j :: 1 <= j < k + 1 ==> products[j] == products[1..][j - 1];
        }
        r
      else r
  }

  /** `build(target, products)`: the outcome of building `target` on disk
      `d` with at most `fuel` nested calls. */
  function BuildSpec(fuel: nat, target: string, products: Products, d: Disk, run: Runner): Outcome
    decreases fuel, 2, 0
  {
    if fuel == 0 then Outcome(Failure(OutOfFuel), d)
    else if !StartsWith(target, ".") then
      BuildSpec(fuel - 1, Normalize(target), products, d, run)
    else if target in d.files then
      if target in products then RebuildIfStale(fuel, target, products, d, run)
      else Outcome(Success(0), d)
    else if target in products then Generate(fuel, target, products, d, run)
    else Outcome(Success(0), d)
  }

  /** A product on disk (tom.py:108-119): build its requirements, then remove
      and generate it again if any of them built something or if it is older
      than the file that declares it. */
  function RebuildIfStale(fuel: nat, target: string, products: Products, d: Disk, run: Runner): Outcome
    requires fuel > 0 && target in products
    decreases fuel, 1, 0
  {
    var node := products[target];
    var req := BuildAll(fuel - 1, node.requirements, products, d, run);
    if req.result.Failure? then req
    else
      var built := req.result.value;
      var d1 := req.disk;
      if target !in d1.files then Outcome(Failure(MissingFile(target)), d1)
      else if built == 0 && node.name !in d1.files then Outcome(Failure(MissingFile(node.name)), d1)
      else if built > 0 || d1.files[target] < d1.files[node.name] then
        var again := BuildSpec(fuel - 1, target, products, d1.(files := d1.files - {target}), run);
        if again.result.Failure? then again
        else Outcome(Success(built + again.result.value), again.disk)
      else Outcome(Success(0), d1)
  }

  /** A product not on disk (tom.py:120-132): build its requirements, then
      run the command of the first product with the target's path. */
  function Generate(fuel: nat, target: string, products: Products, d: Disk, run: Runner): Outcome
    requires fuel > 0 && target in products
    decreases fuel, 1, 0
  {
    var node := products[target];
    var req := BuildAll(fuel - 1, node.requirements, products, d, run);
    if req.result.Failure? then req
    else
      match FindProduct(node.products, target)
      case None => req
      case Some(p) => Outcome(Success(req.result.value + 1), Execute(req.disk, p.command, run))
  }

  /** The loop over a node's requirements: each is built in turn on the disk
      the previous ones left, and the counts add up. */
  function BuildAll(fuel: nat, requirements: seq<string>, products: Products, d: Disk, run: Runner): Outcome
    decreases fuel, 3, |requirements|
  {
    if |requirements| == 0 then Outcome(Success(0), d)
    else
      var prev := BuildAll(fuel, requirements[..|requirements| - 1], products, d, run);
      if prev.result.Failure? then prev
      else
        var next := BuildSpec(fuel, requirements[|requirements| - 1], products, prev.disk, run);
        if next.result.Failure? then next
        else Outcome(Success(prev.result.value + next.result.value), next.disk)
  }

  /** The file system the tool works on. */
  class FileSystem {
    var files: Files
    var executed: seq<string>
    const run: Runner

    constructor (files: Files, run: Runner)
      ensures this.files == files && executed == [] && this.run == run
    {
      this.files := files;
      executed := [];
      this.run := run;
    }

    function Snapshot(): Disk
      reads this
    {
      Disk(files, executed)
    }

    /** `os.remove`. */
    method Remove(path: string)
      requires path in files
      modifies this
      ensures files == old(files) - {path} && executed == old(executed)
    {
      files := files - {path};
    }

    /** `os.system`. */
    method System(command: string)
      modifies this
      ensures Snapshot() == Execute(old(Snapshot()), command, run)
    {
      files := run(|executed|, command, files);
      executed := executed + [command];
    }
  }

  /** `build` (tom.py:102-136), with `fuel` bounding the depth of its
      recursion. */
  method Build(fs: FileSystem, target: string, products: Products, fuel: nat) returns (r: Result<nat, BuildError>)
    modifies fs
    ensures Outcome(r, fs.Snapshot()) == BuildSpec(fuel, target, products, old(fs.Snapshot()), fs.run)
    decreases fuel, 2
  {
    if fuel == 0 {
      return Failure(OutOfFuel);
    }
    ghost var d0 := fs.Snapshot();
    ghost var spec := BuildSpec(fuel, target, products, d0, fs.run);
    if !StartsWith(target, ".") {
      var normalized := NormalizeTarget(target);
      assert spec == BuildSpec(fuel - 1, normalized, products, d0, fs.run);
      r := Build(fs, normalized, products, fuel - 1);
    } else if target in fs.files {
      if target in products {
        assert spec == RebuildIfStale(fuel, target, products, d0, fs.run);
        r := Refresh(fs, target, products, fuel);
      } else {
        r := Success(0);
      }
    } else if target in products {
      assert spec == Generate(fuel, target, products, d0, fs.run);
      r := Produce(fs, target, products, fuel);
    } else {
      r := Success(0);
    }
  }

  /** The branch of `build` for a product on disk (tom.py:108-119). */
  method Refresh(fs: FileSystem, target: string, products: Products, fuel: nat) returns (r: Result<nat, BuildError>)
    requires fuel > 0 && target in products
    modifies fs
    ensures Outcome(r, fs.Snapshot()) == RebuildIfStale(fuel, target, products, old(fs.Snapshot()), fs.run)
    decreases fuel, 1
  {
    ghost var d0 := fs.Snapshot();
    var node := products[target];
    var req := BuildRequirements(fs, node.requirements, products, fuel - 1);
    ghost var d1 := fs.Snapshot();
    ghost var spec := BuildAll(fuel - 1, node.requirements, products, d0, fs.run);
    assert spec == Outcome(req, d1);
    if req.Failure? {
      return req;
    }
    var built := req.value;
    if target !in fs.files {
      return Failure(MissingFile(target));
    }
    if built == 0 && node.name !in fs.files {
      return Failure(MissingFile(node.name));
    }
    if built > 0 || fs.files[target] < fs.files[node.name] {
      fs.Remove(target);
      ghost var d2 := d1.(files := d1.files - {target});
      assert fs.Snapshot() == d2;
      var again := Build(fs, target, products, fuel - 1);
      assert Outcome(again, fs.Snapshot()) == BuildSpec(fuel - 1, target, products, d2, fs.run);
      if again.Failure? {
        return again;
      }
      return Success(built + again.value);
    }
    // The target is up to date.
    return Success(0);
  }

  /** The branch of `build` for a product not on disk (tom.py:120-132). */
  method Produce(fs: FileSystem, target: string, products: Products, fuel: nat) returns (r: Result<nat, BuildError>)
    requires fuel > 0 && target in products
    modifies fs
    ensures Outcome(r, fs.Snapshot()) == Generate(fuel, target, products, old(fs.Snapshot()), fs.run)
    decreases fuel, 1
  {
    ghost var d0 := fs.Snapshot();
    var node := products[target];
    var req := BuildRequirements(fs, node.requirements, products, fuel - 1);
    ghost var d1 := fs.Snapshot();
    assert BuildAll(fuel - 1, node.requirements, products, d0, fs.run) == Outcome(req, d1);
    if req.Failure? {
      return req;
    }
    var built := req.value;
    var ran := RunFirstProduct(fs, node.products, target);
    if ran {
      built := built + 1;
    }
    return Success(built);
  }

  /** The loop over a node's products (tom.py:126-132): the command of the
      first product whose path is `target` is run, and the loop stops. */
  method RunFirstProduct(fs: FileSystem, candidates: seq<Product>, target: string) returns (ran: bool)
    modifies fs
    ensures ran <==> FindProduct(candidates, target).Some?
    ensures fs.Snapshot() == match FindProduct(candidates, target)
      case None => old(fs.Snapshot())
      case Some(p) => Execute(old(fs.Snapshot()), p.command, fs.run)
  {
    ran := false;
    var k := 0;
    while k < |candidates|
      invariant 0 <= k <= |candidates|
      invariant FindProduct(candidates[k..], target) == FindProduct(candidates, target)
      invariant fs.Snapshot() == old(fs.Snapshot()) && !ran
    {
      var product := candidates[k];
      if product.path == target {
        fs.System(product.command);
        ran := true;
        break;
      }
      assert candidates[k..][1..] == candidates[k + 1..];
      k := k + 1;
    }
  }

  /** The loop `for requirement in node.requirements: built += build(...)`. */
  method BuildRequirements(fs: FileSystem, requirements: seq<string>, products: Products, fuel: nat)
    returns (r: Result<nat, BuildError>)
    modifies fs
    ensures Outcome(r, fs.Snapshot()) == BuildAll(fuel, requirements, products, old(fs.Snapshot()), fs.run)
    decreases fuel, 3
  {
    ghost var start := fs.Snapshot();
    var built := 0;
    for i := 0 to |requirements|
      invariant Outcome(Success(built), fs.Snapshot()) == BuildAll(fuel, requirements[..i], products, start, fs.run)
    {
      assert requirements[..i + 1] == requirements[..i] + [requirements[i]];
      BuildAllSnoc(fuel, requirements[..i], requirements[i], products, start, fs.run);
      var b := Build(fs, requirements[i], products, fuel);
      if b.Failure? {
        BuildAllFailurePersists(fuel, requirements[..i + 1], requirements, products, start, fs.run);
        return b;
      }
      built := built + b.value;
    }
    assert requirements[..|requirements|] == requirements;
    r := Success(built);
  }

  lemma BuildAllSnoc(fuel: nat, requirements: seq<string>, req: string, products: Products, d: Disk, run: Runner)
    ensures var prev := BuildAll(fuel, requirements, products, d, run);
      var next := BuildSpec(fuel, req, products, prev.disk, run);
      BuildAll(fuel, requirements + [req], products, d, run) ==
        if prev.result.Failure? then prev
        else if next.result.Failure? then next
        else Outcome(Success(prev.result.value + next.result.value), next.disk)
  {
    assert (requirements + [req])[..|requirements|] == requirements;
  }

  /** Once building a prefix of the requirements fails, building all of them
      fails the same way. */
  lemma {:induction false} BuildAllFailurePersists(fuel: nat, prefix: seq<string>, requirements: seq<string>,
                                                   products: Products, d: Disk, run: Runner)
    requires prefix <= requirements
    requires BuildAll(fuel, prefix, products, d, run).result.Failure?
    ensures BuildAll(fuel, requirements, products, d, run) == BuildAll(fuel, prefix, products, d, run)
    decreases |requirements|
  {
    if |requirements| > |prefix| {
      var init := requirements[..|requirements| - 1];
      assert prefix <= init;
      BuildAllFailurePersists(fuel, prefix, init, products, d, run);
    } else {
      assert prefix == requirements;
    }
  }

  /** `clean` (tom.py:187-191): every registered product path that exists is
      removed; nothing else changes. */
  method Clean(fs: FileSystem, products: Products)
    modifies fs
    ensures fs.files == old(fs.files) - products.Keys
    ensures forall p :: p in products ==> p !in fs.files
    ensures forall p :: p in old(fs.files) && p !in products ==> p in fs.files && fs.files[p] == old(fs.files)[p]
    ensures fs.executed == old(fs.executed)
  {
    var keys := products.Keys;
    while keys != {}
      invariant keys <= products.Keys
      invariant fs.files == old(fs.files) - (products.Keys - keys)
      invariant fs.executed == old(fs.executed)
      decreases keys
    {
      var p :| p in keys;
      if p in fs.files {
        fs.Remove(p);
      }
      keys := keys - {p};
    }
  }

  // -----------------------------------------------------------------------
  // What the build promises
  // -----------------------------------------------------------------------

  /** The count `build` returns is the number of commands it executed; the
      record of executed commands only ever grows. */
  lemma {:induction false} BuildCountsExecutions(fuel: nat, target: string, products: Products, d: Disk, run: Runner)
    ensures var o := BuildSpec(fuel, target, products, d, run);
      d.executed <= o.disk.executed &&
      (o.result.Success? ==> |o.disk.executed| == |d.executed| + o.result.value)
    decreases fuel, 2, 0
  {
    if fuel > 0 {
      if !StartsWith(target, ".") {
        BuildCountsExecutions(fuel - 1, Normalize(target), products, d, run);
      } else if target in products {
        var node := products[target];
        BuildAllCountsExecutions(fuel - 1, node.requirements, products, d, run);
        var req := BuildAll(fuel - 1, node.requirements, products, d, run);
        if target in d.files && req.result.Success? && target in req.disk.files {
          var d1 := req.disk;
          BuildCountsExecutions(fuel - 1, target, products, d1.(files := d1.files - {target}), run);
        }
      }
    }
  }

  lemma {:induction false} BuildAllCountsExecutions(fuel: nat, requirements: seq<string>, products: Products, d: Disk, run: Runner)
    ensures var o := BuildAll(fuel, requirements, products, d, run);
      d.executed <= o.disk.executed &&
      (o.result.Success? ==> |o.disk.executed| == |d.executed| + o.result.value)
    decreases fuel, 3, |requirements|
  {
    if |requirements| > 0 {
      var init := requirements[..|requirements| - 1];
      BuildAllCountsExecutions(fuel, init, products, d, run);
      var prev := BuildAll(fuel, init, products, d, run);
      if prev.result.Success? {
        BuildCountsExecutions(fuel, requirements[|requirements| - 1], products, prev.disk, run);
      }
    }
  }

  /** A target that is a product and absent is generated: with a consistent
      registry a successful build of it counts at least one execution. */
  lemma AbsentProductIsGenerated(fuel: nat, target: string, products: Products, d: Disk, run: Runner)
    requires Consistent(products)
    requires StartsWith(target, ".") && target !in d.files && target in products
    ensures var o := BuildSpec(fuel, target, products, d, run);
      o.result.Success? ==> o.result.value >= 1
  {
    if fuel > 0 {
      assert BuildSpec(fuel, target, products, d, run) == Generate(fuel, target, products, d, run);
      assert Declares(products[target], target);
      assert FindProduct(products[target].products, target).Some?;
    }
  }

  /** With a consistent registry, a build that reports nothing built has not
      touched the disk: it removed nothing and ran nothing. */
  lemma {:induction false} ZeroBuildChangesNothing(fuel: nat, target: string, products: Products, d: Disk, run: Runner)
    requires Consistent(products)
    requires BuildSpec(fuel, target, products, d, run).result == Success(0)
    ensures BuildSpec(fuel, target, products, d, run).disk == d
    decreases fuel, 2, 0
  {
    if !StartsWith(target, ".") {
      ZeroBuildChangesNothing(fuel - 1, Normalize(target), products, d, run);
    } else if target in d.files && target in products {
      var node := products[target];
      var req := BuildAll(fuel - 1, node.requirements, products, d, run);
      var o := RebuildIfStale(fuel, target, products, d, run);
      assert o == BuildSpec(fuel, target, products, d, run);
      var d1 := req.disk;
      assert req.result.Success? && target in d1.files;
      if req.result.value > 0 || d1.files[target] < d1.files[node.name] {
        var d2 := d1.(files := d1.files - {target});
        AbsentProductIsGenerated(fuel - 1, target, products, d2, run);
        assert false;
      } else {
        assert o == Outcome(Success(0), d1);
        ZeroBuildAllChangesNothing(fuel - 1, node.requirements, products, d, run);
      }
    } else if target in products {
      AbsentProductIsGenerated(fuel, target, products, d, run);
      assert false;
    }
  }

  lemma {:induction false} ZeroBuildAllChangesNothing(fuel: nat, requirements: seq<string>, products: Products, d: Disk, run: Runner)
    requires Consistent(products)
    requires BuildAll(fuel, requirements, products, d, run).result == Success(0)
    ensures BuildAll(fuel, requirements, products, d, run).disk == d
    decreases fuel, 3, |requirements|
  {
    if |requirements| > 0 {
      var init := requirements[..|requirements| - 1];
      var prev := BuildAll(fuel, init, products, d, run);
      ZeroBuildAllChangesNothing(fuel, init, products, d, run);
      ZeroBuildChangesNothing(fuel, requirements[|requirements| - 1], products, prev.disk, run);
    }
  }

  /** A target that is neither on disk nor a product: "don't know how to
      build", nothing built and nothing changed. */
  lemma UnknownTarget(fuel: nat, target: string, products: Products, d: Disk, run: Runner)
    requires fuel > 0 && StartsWith(target, ".")
    requires target !in d.files && target !in products
    ensures BuildSpec(fuel, target, products, d, run) == Outcome(Success(0), d)
  {
  }

  /** A file on disk that no node produces is a leaf: nothing built and
      nothing changed. */
  lemma ExistingSourceIsLeaf(fuel: nat, target: string, products: Products, d: Disk, run: Runner)
    requires fuel > 0 && StartsWith(target, ".")
    requires target in d.files && target !in products
    ensures BuildSpec(fuel, target, products, d, run) == Outcome(Success(0), d)
  {
  }

  /** An existing product whose requirements all build nothing and which is
      not older than the file declaring it is up to date: 0 is returned and
      the target is neither removed nor regenerated. */
  lemma UpToDateTarget(fuel: nat, target: string, products: Products, d: Disk, run: Runner)
    requires Consistent(products)
    requires fuel > 0 && StartsWith(target, ".") && target in d.files && target in products
    requires BuildAll(fuel - 1, products[target].requirements, products, d, run).result == Success(0)
    requires products[target].name in d.files && d.files[target] >= d.files[products[target].name]
    ensures BuildSpec(fuel, target, products, d, run) == Outcome(Success(0), d)
  {
    ZeroBuildAllChangesNothing(fuel - 1, products[target].requirements, products, d, run);
  }

  /** The same without any assumption on the registry, stated on the disk
      the requirement builds leave behind. */
  lemma UpToDateAfterRequirements(fuel: nat, target: string, products: Products, d: Disk, run: Runner)
    requires fuel > 0 && StartsWith(target, ".") && target in d.files && target in products
    requires var req := BuildAll(fuel - 1, products[target].requirements, products, d, run);
      req.result == Success(0) && target in req.disk.files && products[target].name in req.disk.files &&
      req.disk.files[target] >= req.disk.files[products[target].name]
    ensures var req := BuildAll(fuel - 1, products[target].requirements, products, d, run);
      BuildSpec(fuel, target, products, d, run) == Outcome(Success(0), req.disk) &&
      target in BuildSpec(fuel, target, products, d, run).disk.files
  {
  }

  /** A product on disk that is older than the file declaring it, and whose
      requirements build nothing, is removed and built again: the outcome is
      that of building it on the disk without it. */
  lemma StaleTargetIsRebuilt(fuel: nat, target: string, products: Products, d: Disk, run: Runner)
    requires Consistent(products)
    requires fuel > 0 && StartsWith(target, ".") && target in d.files && target in products
    requires BuildAll(fuel - 1, products[target].requirements, products, d, run).result == Success(0)
    requires products[target].name in d.files && d.files[target] < d.files[products[target].name]
    ensures BuildSpec(fuel, target, products, d, run) ==
      BuildSpec(fuel - 1, target, products, d.(files := d.files - {target}), run)
  {
    ZeroBuildAllChangesNothing(fuel - 1, products[target].requirements, products, d, run);
    assert BuildSpec(fuel, target, products, d, run) == RebuildIfStale(fuel, target, products, d, run);
  }

  /** A product on disk whose requirements built something is removed and
      built again whatever its age, and the counts add up. */
  lemma RebuiltRequirementsForceRebuild(fuel: nat, target: string, products: Products, d: Disk, run: Runner)
    requires fuel > 0 && StartsWith(target, ".") && target in d.files && target in products
    requires var req := BuildAll(fuel - 1, products[target].requirements, products, d, run);
      req.result.Success? && req.result.value > 0 && target in req.disk.files
    ensures var req := BuildAll(fuel - 1, products[target].requirements, products, d, run);
      var again := BuildSpec(fuel - 1, target, products, req.disk.(files := req.disk.files - {target}), run);
      BuildSpec(fuel, target, products, d, run) ==
        if again.result.Failure? then again
        else Outcome(Success(req.result.value + again.result.value), again.disk)
  {
    assert BuildSpec(fuel, target, products, d, run) == RebuildIfStale(fuel, target, products, d, run);
  }

  /** In particular, a stale product without requirements is removed and
      generated again by exactly one execution of its command. */
  lemma StaleTargetIsRegenerated(fuel: nat, target: string, products: Products, d: Disk, run: Runner)
    requires Consistent(products)
    requires fuel > 1 && StartsWith(target, ".") && target in d.files && target in products
    requires products[target].requirements == []
    requires products[target].name in d.files && d.files[target] < d.files[products[target].name]
    ensures var p := FindProduct(products[target].products, target);
      p.Some? &&
      BuildSpec(fuel, target, products, d, run) ==
        Outcome(Success(1), Execute(d.(files := d.files - {target}), p.value.command, run))
  {
    var node := products[target];
    assert Declares(node, target);
    var d0 := d.(files := d.files - {target});
    assert BuildAll(fuel - 1, [], products, d, run) == Outcome(Success(0), d);
    StaleTargetIsRebuilt(fuel, target, products, d, run);
    FreshProductBuildsOnce(fuel - 1, target, products, d0, run);
  }

  /** A product without requirements that is absent is generated by exactly
      one execution of its command. */
  lemma FreshProductBuildsOnce(fuel: nat, target: string, products: Products, d: Disk, run: Runner)
    requires Consistent(products)
    requires fuel > 0 && StartsWith(target, ".") && target !in d.files && target in products
    requires products[target].requirements == []
    ensures var p := FindProduct(products[target].products, target);
      p.Some? &&
      BuildSpec(fuel, target, products, d, run) == Outcome(Success(1), Execute(d, p.value.command, run))
  {
    assert Declares(products[target], target);
    assert BuildAll(fuel - 1, [], products, d, run) == Outcome(Success(0), d);
    assert BuildSpec(fuel, target, products, d, run) == Generate(fuel, target, products, d, run);
  }

  /** A target that does not start with "." is first replaced by
      `completePath('./', target)`, which is "./target" for a relative one. */
  lemma NormalizedTarget(fuel: nat, target: string, products: Products, d: Disk, run: Runner)
    requires fuel > 0 && !StartsWith(target, ".")
    ensures BuildSpec(fuel, target, products, d, run) == BuildSpec(fuel - 1, CompletePath("./", target), products, d, run)
    ensures !StartsWith(target, "/") ==>
      BuildSpec(fuel, target, products, d, run) == BuildSpec(fuel - 1, "./" + target, products, d, run)
  {
    NormalizeIsCompletePath(target);
  }

  /** An absolute target (or requirement) is never normalised to something
      starting with ".", so `build` calls itself on it again and again: no
      amount of fuel suffices. */
  lemma {:induction false} AbsoluteTargetNeverFinishes(fuel: nat, target: string, products: Products, d: Disk, run: Runner)
    requires StartsWith(target, "/")
    ensures BuildSpec(fuel, target, products, d, run) == Outcome(Failure(OutOfFuel), d)
    decreases fuel
  {
    if fuel > 0 {
      assert target[0] == '/' by {
        assert target[..1] == "/";
      }
      assert !StartsWith(target, ".") by {
        assert target[..1] != ".";
      }
      AbsoluteTargetNeverFinishes(fuel - 1, target, products, d, run);
    }
  }
}
