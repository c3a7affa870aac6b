/** The directive scanner and the command templater: `scan` and
    `assignCommand` of tom.py (lines 69-100). A scanned file becomes a Node
    holding the paths it requires and the products it can generate. */
module Scanner {
  import opened Wrappers
  import opened Strings
  import opened Paths
  import opened Patterns

  /** One artefact a file declares: the name as written, the path resolved
      against the declaring file, and the fully expanded command. */
  datatype Product = Product(name: string, path: string, command: string)

  /** One scanned file. The source fills `requirements` and `products` while
      it scans and only reads them afterwards. */
  datatype Node = Node(name: string, requirements: seq<string>, products: seq<Product>)

  /** The process environment, in the order `os.environ.iterkeys()` yields it. */
  type Environment = seq<(string, string)>

  /** A `@produces` directive without a quoted literal: in the source
      `literal.search` returns None and reading its group raises. */
  datatype ScanError = ProducesWithoutLiteral(file: string, directive: string)

  // ---------------------------------------------------------------------
  // Command templater
  // ---------------------------------------------------------------------

  /** One pass over the environment: each variable, in order, replaces
      `$NAME` by its value in the text the earlier variables left. */
  function ExpandEnvironment(template: string, env: Environment): string
    decreases |env|
  {
    if |env| == 0 then template
    else
      var (name, value) := env[|env| - 1];
      Replace(ExpandEnvironment(template, env[..|env| - 1]), "$" + name, value)
  }

  /** The fixed chain of token replaces: `$#` the file, `$~` its directory,
      `$^` its requirements separated by one space, `$@` the product name. */
  function SubstituteTokens(c: string, nodeName: string, requirements: seq<string>, productName: string): string {
    var c1 := Replace(c, "$#", nodeName);
    var c2 := Replace(c1, "$~", Dirname(nodeName));
    var c3 := Replace(c2, "$^", JoinWith(requirements, " "));
    Replace(c3, "$@", productName)
  }

  function Command(node: Node, productName: string, template: string, env: Environment): string {
    SubstituteTokens(ExpandEnvironment(template, env), node.name, node.requirements, productName)
  }

  /** `assignCommand` (tom.py:69-79): the environment pass as a loop, then the
      token chain, for the node as scanned so far. */
  method AssignCommand(node: Node, productName: string, template: string, env: Environment)
    returns (command: string)
    ensures command == SubstituteTokens(ExpandEnvironment(template, env), node.name, node.requirements, productName)
  {
    command := template;
    for i := 0 to |env|
      invariant command == ExpandEnvironment(template, env[..i])
    {
      var (name, value) := env[i];
      assert env[..i + 1][..i] == env[..i];
      command := Replace(command, "$" + name, value);
    }
    assert env[..|env|] == env;
    command := Replace(command, "$#", node.name);
    command := Replace(command, "$~", Dirname(node.name));
    command := Replace(command, "$^", JoinWith(node.requirements, " "));
    command := Replace(command, "$@", productName);
  }

  /** A text without '$' passes the environment unchanged. */
  lemma {:induction false} ExpandEnvironmentNoDollar(template: string, env: Environment)
    requires '$' !in template
    ensures ExpandEnvironment(template, env) == template
    decreases |env|
  {
    if |env| > 0 {
      ExpandEnvironmentNoDollar(template, env[..|env| - 1]);
      var (name, value) := env[|env| - 1];
      NotContainsFirstChar(template, "$" + name);
      ReplaceAbsent(template, "$" + name, value);
    }
  }

  /** A command template without '$' is used as it is written. */
  lemma CommandWithoutDollar(node: Node, productName: string, template: string, env: Environment)
    requires '$' !in template
    ensures Command(node, productName, template, env) == template
  {
    ExpandEnvironmentNoDollar(template, env);
    NotContainsFirstChar(template, "$#");
    ReplaceAbsent(template, "$#", node.name);
    NotContainsFirstChar(template, "$~");
    ReplaceAbsent(template, "$~", Dirname(node.name));
    NotContainsFirstChar(template, "$^");
    ReplaceAbsent(template, "$^", JoinWith(node.requirements, " "));
    NotContainsFirstChar(template, "$@");
    ReplaceAbsent(template, "$@", productName);
  }

  lemma ReplaceNoDollar(s: string, pat: string, rep: string)
    requires |pat| > 0 && pat[0] == '$' && '$' !in s
    ensures Replace(s, pat, rep) == s
  {
    NotContainsFirstChar(s, pat);
    ReplaceAbsent(s, pat, rep);
  }

  /** What each token stands for, when the values put in its place hold no
      '$' themselves (the chain would treat a '$' in them as a later token). */
  lemma TokenMeaning(nodeName: string, requirements: seq<string>, productName: string)
    requires '$' !in nodeName && '$' !in JoinWith(requirements, " ")
    ensures SubstituteTokens("$#", nodeName, requirements, productName) == nodeName
    ensures SubstituteTokens("$~", nodeName, requirements, productName) == Dirname(nodeName)
    ensures SubstituteTokens("$^", nodeName, requirements, productName) == JoinWith(requirements, " ")
    ensures SubstituteTokens("$@", nodeName, requirements, productName) == productName
  {
    var dir := Dirname(nodeName);
    var reqs := JoinWith(requirements, " ");
    DirnameShape(nodeName);
    assert '$' !in dir by {
      assert dir == nodeName[..|dir|];
      forall k | 0 <= k < |dir|
        ensures dir[k] != '$'
      {
        assert dir[k] == nodeName[k];
      }
    }
    TwoCharAbsent("$~", "$#");
    ReplaceAbsent("$~", "$#", nodeName);
    TwoCharAbsent("$^", "$#");
    ReplaceAbsent("$^", "$#", nodeName);
    TwoCharAbsent("$^", "$~");
    ReplaceAbsent("$^", "$~", dir);
    TwoCharAbsent("$@", "$#");
    ReplaceAbsent("$@", "$#", nodeName);
    TwoCharAbsent("$@", "$~");
    ReplaceAbsent("$@", "$~", dir);
    TwoCharAbsent("$@", "$^");
    ReplaceAbsent("$@", "$^", reqs);
    ReplaceWhole("$#", nodeName);
    ReplaceNoDollar(nodeName, "$~", dir);
    ReplaceNoDollar(nodeName, "$^", reqs);
    ReplaceNoDollar(nodeName, "$@", productName);
    ReplaceWhole("$~", dir);
    ReplaceNoDollar(dir, "$^", reqs);
    ReplaceNoDollar(dir, "$@", productName);
    ReplaceWhole("$^", reqs);
    ReplaceNoDollar(reqs, "$@", productName);
    ReplaceWhole("$@", productName);
  }

  /** The chain runs in a fixed order and each step sees the text the earlier
      steps produced: a `$@` inside the file name is itself replaced. */
  lemma TokensRescanEarlierText()
    ensures SubstituteTokens("$#", "a$@", [], "x") == "ax"
  {
    ReplaceWhole("$#", "a$@");
    TwoCharAbsent("a$@", "$~");
    ReplaceAbsent("a$@", "$~", Dirname("a$@"));
    TwoCharAbsent("a$@", "$^");
    ReplaceAbsent("a$@", "$^", "");
    assert "a$@"[..2] != "$@";
    assert "a$@"[1..] == "$@";
    ReplaceWhole("$@", "x");
  }

  /** One pass, in environment order, and no fixed point: a variable whose
      value names a variable that comes later is expanded further, one that
      names an earlier variable is not. */
  lemma EnvironmentIsOnePass()
    ensures ExpandEnvironment("$A", [("A", "$B"), ("B", "x")]) == "x"
    ensures ExpandEnvironment("$A", [("B", "x"), ("A", "$B")]) == "$B"
  {
    var e1: Environment := [("A", "$B"), ("B", "x")];
    assert e1[..1] == [("A", "$B")];
    assert e1[..1][..0] == [];
    ReplaceWhole("$A", "$B");
    ReplaceWhole("$B", "x");
    var e2: Environment := [("B", "x"), ("A", "$B")];
    assert e2[..1] == [("B", "x")];
    assert e2[..1][..0] == [];
    assert Replace("$A", "$B", "x") == "$A";
  }

  // ---------------------------------------------------------------------
  // Directive scanner
  // ---------------------------------------------------------------------

  predicate IsRequires(d: string) {
    StartsWith(d, "@requires")
  }

  /** The source tests `@requires` first, so a directive is a `@produces`
      one only if it is not a `@requires` one. */
  predicate IsProduces(d: string) {
    !StartsWith(d, "@requires") && StartsWith(d, "@produces")
  }

  /** The quoted literals of a directive, unquoted and resolved. */
  function ResolveAll(file: string, lits: seq<string>): (paths: seq<string>)
    ensures |paths| == |lits|
    decreases |lits|
  {
    if |lits| == 0 then []
    else ResolveAll(file, lits[..|lits| - 1]) + [CompletePath(file, Unquote(lits[|lits| - 1]))]
  }

  /** One resolved path per literal, in order: the literal stripped of its
      quotes and resolved against the file. */
  lemma {:induction false} ResolveAllMeaning(file: string, lits: seq<string>)
    ensures forall k :: 0 <= k < |lits| ==>
      ResolveAll(file, lits)[k] == CompletePath(file, Unquote(lits[k]))
    decreases |lits|
  {
    if |lits| > 0 {
      var init := lits[..|lits| - 1];
      ResolveAllMeaning(file, init);
      var r := ResolveAll(file, lits);
      assert r == ResolveAll(file, init) + [CompletePath(file, Unquote(lits[|lits| - 1]))];
      forall k | 0 <= k < |lits|
        ensures r[k] == CompletePath(file, Unquote(lits[k]))
      {
        if k < |init| {
          var x := lits[k];
          assert x == init[k];
          assert ResolveAll(file, init)[k] == CompletePath(file, Unquote(x));
          assert r[k] == ResolveAll(file, init)[k];
        } else {
          var last := CompletePath(file, Unquote(lits[|lits| - 1]));
          assert k == |ResolveAll(file, init)|;
          assert r[k] == last;
        }
      }
    }
  }

  /** The raw command: the directive from one character past the closing
      quote of its first literal (`directive[match.end() + 1:]`). */
  function CommandTemplate(d: string, literalEnd: nat): string {
    if literalEnd + 1 <= |d| then d[literalEnd + 1..] else ""
  }

  /** What one directive does to the node being scanned. */
  function ScanStep(file: string, node: Node, d: string, env: Environment): Result<Node, ScanError> {
    if IsRequires(d) then
      Success(node.(requirements := node.requirements + ResolveAll(file, Literals(d))))
    else if StartsWith(d, "@produces") then
      match NextLiteral(d, 0)
      case None => Failure(ProducesWithoutLiteral(file, d))
      case Some((a, e)) =>
        var name := Unquote(d[a..e]);
        var product := Product(name, CompletePath(file, name), Command(node, name, CommandTemplate(d, e), env));
        Success(node.(products := node.products + [product]))
    else Success(node)
  }

  /** The node obtained from the directives `ds`, in text order. */
  function ScanDirectives(file: string, ds: seq<string>, env: Environment): Result<Node, ScanError>
    decreases |ds|
  {
    if |ds| == 0 then Success(Node(file, [], []))
    else
      match ScanDirectives(file, ds[..|ds| - 1], env)
      case Failure(err) => Failure(err)
      case Success(node) => ScanStep(file, node, ds[|ds| - 1], env)
  }

  lemma ScanDirectivesSnoc(file: string, ds: seq<string>, d: string, env: Environment)
    ensures ScanDirectives(file, ds, env).Failure? ==>
      ScanDirectives(file, ds + [d], env) == ScanDirectives(file, ds, env)
    ensures ScanDirectives(file, ds, env).Success? ==>
      ScanDirectives(file, ds + [d], env) == ScanStep(file, ScanDirectives(file, ds, env).value, d, env)
  {
    assert (ds + [d])[..|ds|] == ds;
  }

  /** The body of the loop of `scan` (tom.py:87-96) for one directive. */
  method ScanDirective(file: string, node: Node, d: string, env: Environment)
    returns (r: Result<Node, ScanError>)
    ensures r == ScanStep(file, node, d, env)
    ensures r.Failure? <==> IsProduces(d) && NextLiteral(d, 0).None?
    ensures r.Failure? ==> r.error == ProducesWithoutLiteral(file, d)
    ensures r.Success? ==> r.value.name == node.name
    ensures r.Success? ==>
      r.value.requirements == node.requirements + (if IsRequires(d) then ResolveAll(file, Literals(d)) else [])
    ensures r.Success? ==>
      |r.value.products| == |node.products| + (if IsProduces(d) then 1 else 0) &&
      r.value.products[..|node.products|] == node.products
    ensures r.Success? && IsProduces(d) ==>
      var p := r.value.products[|node.products|];
      p.name == DeclaredName(d) && p.path == CompletePath(file, p.name) &&
      p.command == Command(node, p.name, CommandTemplate(d, NextLiteral(d, 0).value.1), env)
  {
    if StartsWith(d, "@requires") {
      r := Success(node.(requirements := node.requirements + ResolveAll(file, Literals(d))));
    } else if StartsWith(d, "@produces") {
      var m := NextLiteral(d, 0);
      if m.None? {
        return Failure(ProducesWithoutLiteral(file, d));
      }
      var (a, e) := m.value;
      var name := Unquote(d[a..e]);
      var path := CompletePath(file, name);
      var command := AssignCommand(node, name, CommandTemplate(d, e), env);
      r := Success(node.(products := node.products + [Product(name, path, command)]));
    } else {
      r := Success(node);
    }
  }

  /** `scan` (tom.py:81-100) on the text of `file`. */
  method Scan(file: string, text: string, env: Environment) returns (r: Result<Node, ScanError>)
    ensures r == ScanDirectives(file, Directives(text), env)
  {
    var ds := Directives(text);
    var node := Node(file, [], []);
    for i := 0 to |ds|
      invariant ScanDirectives(file, ds[..i], env) == Success(node)
    {
      assert ds[..i + 1] == ds[..i] + [ds[i]];
      ScanDirectivesSnoc(file, ds[..i], ds[i], env);
      var step := ScanDirective(file, node, ds[i], env);
      assert ScanDirectives(file, ds[..i + 1], env) == step;
      if step.Failure? {
        ScanFailurePersists(file, ds[..i + 1], ds, env);
        return step;
      }
      node := step.value;
    }
    assert ds[..|ds|] == ds;
    r := Success(node);
  }

  /** Once a prefix of the directives fails, the whole scan fails the same way. */
  lemma {:induction false} ScanFailurePersists(file: string, prefix: seq<string>, ds: seq<string>, env: Environment)
    requires prefix <= ds && ScanDirectives(file, prefix, env).Failure?
    ensures ScanDirectives(file, ds, env) == ScanDirectives(file, prefix, env)
    decreases |ds|
  {
    if |ds| > |prefix| {
      var init := ds[..|ds| - 1];
      assert prefix <= init;
      ScanFailurePersists(file, prefix, init, env);
      assert ds == init + [ds[|ds| - 1]];
      ScanDirectivesSnoc(file, init, ds[|ds| - 1], env);
    } else {
      assert prefix == ds;
    }
  }

  /** The requirements of the `@requires` directives among `ds`, in order,
      duplicates kept: an independent definition, from the front. */
  function RequiresOf(file: string, ds: seq<string>): seq<string>
    decreases |ds|
  {
    if |ds| == 0 then []
    else (if IsRequires(ds[0]) then ResolveAll(file, Literals(ds[0])) else []) + RequiresOf(file, ds[1..])
  }

  lemma {:induction false} RequiresOfAppend(file: string, a: seq<string>, b: seq<string>)
    ensures RequiresOf(file, a + b) == RequiresOf(file, a) + RequiresOf(file, b)
    decreases |a|
  {
    if |a| > 0 {
      var ab := a + b;
      assert ab[0] == a[0] && ab[1..] == a[1..] + b;
      RequiresOfAppend(file, a[1..], b);
      var first := if IsRequires(a[0]) then ResolveAll(file, Literals(a[0])) else [];
      calc {
        RequiresOf(file, ab);
        first + RequiresOf(file, a[1..] + b);
        first + (RequiresOf(file, a[1..]) + RequiresOf(file, b));
        (first + RequiresOf(file, a[1..])) + RequiresOf(file, b);
      }
    } else {
      assert a + b == b;
    }
  }

  /** The `@produces` directives among `ds`, in order. */
  function ProducesOf(ds: seq<string>): seq<string>
    decreases |ds|
  {
    if |ds| == 0 then []
    else (if IsProduces(ds[0]) then [ds[0]] else []) + ProducesOf(ds[1..])
  }

  lemma {:induction false} ProducesOfAppend(a: seq<string>, b: seq<string>)
    ensures ProducesOf(a + b) == ProducesOf(a) + ProducesOf(b)
    decreases |a|
  {
    if |a| > 0 {
      var ab := a + b;
      assert ab[0] == a[0] && ab[1..] == a[1..] + b;
      ProducesOfAppend(a[1..], b);
      var first := if IsProduces(a[0]) then [a[0]] else [];
      calc {
        ProducesOf(ab);
        first + ProducesOf(a[1..] + b);
        first + (ProducesOf(a[1..]) + ProducesOf(b));
        (first + ProducesOf(a[1..])) + ProducesOf(b);
      }
    } else {
      assert a + b == b;
    }
  }

  /** The product name a `@produces` directive declares: its first literal,
      unquoted. */
  function DeclaredName(d: string): string {
    match NextLiteral(d, 0)
    case None => ""
    case Some((a, e)) => Unquote(d[a..e])
  }

  /** The scanned node is named after the file, and its requirements are
      every quoted literal of every `@requires` directive, in text order,
      unquoted and resolved against the file. */
  lemma {:induction false} ScanRequirements(file: string, ds: seq<string>, env: Environment)
    requires ScanDirectives(file, ds, env).Success?
    ensures ScanDirectives(file, ds, env).value.name == file
    ensures ScanDirectives(file, ds, env).value.requirements == RequiresOf(file, ds)
    decreases |ds|
  {
    if |ds| > 0 {
      var init := ds[..|ds| - 1];
      var d := ds[|ds| - 1];
      ScanRequirements(file, init, env);
      assert ds == init + [d];
      RequiresOfAppend(file, init, [d]);
      assert RequiresOf(file, [d]) == (if IsRequires(d) then ResolveAll(file, Literals(d)) else []) + RequiresOf(file, []);
    }
  }

  /** The scan succeeds exactly when every `@produces` directive holds a
      quoted literal; otherwise it reports the first one that does not. */
  lemma {:induction false} ScanFailsOnBareProduces(file: string, ds: seq<string>, env: Environment)
    ensures ScanDirectives(file, ds, env).Success? <==>
      forall k :: 0 <= k < |ds| && IsProduces(ds[k]) ==> NextLiteral(ds[k], 0).Some?
    ensures ScanDirectives(file, ds, env).Failure? ==>
      exists k :: 0 <= k < |ds| && IsProduces(ds[k]) && NextLiteral(ds[k], 0).None? &&
        ScanDirectives(file, ds, env).error == ProducesWithoutLiteral(file, ds[k]) &&
        forall j :: 0 <= j < k && IsProduces(ds[j]) ==> NextLiteral(ds[j], 0).Some?
    decreases |ds|
  {
    if |ds| > 0 {
      var init := ds[..|ds| - 1];
      ScanFailsOnBareProduces(file, init, env);
      assert forall k :: 0 <= k < |init| ==> init[k] == ds[k];
    }
  }

  /** The products match the `@produces` directives one for one. */
  predicate ProductsDeclared(file: string, products: seq<Product>, directives: seq<string>) {
    |products| == |directives| &&
    forall k :: 0 <= k < |products| ==>
      products[k].name == DeclaredName(directives[k]) &&
      products[k].path == CompletePath(file, products[k].name)
  }

  /** One directive adds a product exactly when it is a `@produces` one. */
  lemma ScanStepProducts(file: string, node: Node, d: string, env: Environment)
    requires ScanStep(file, node, d, env).Success?
    ensures var after := ScanStep(file, node, d, env).value.products;
      |after| == |node.products| + (if IsProduces(d) then 1 else 0) &&
      after[..|node.products|] == node.products &&
      (IsProduces(d) ==>
        (after[|node.products|].name == DeclaredName(d) &&
         after[|node.products|].path == CompletePath(file, DeclaredName(d))))
  {
  }

  /** Each `@produces` directive adds exactly one product, in order: its name
      is the directive's first literal unquoted and its path that name
      resolved against the file. */
  lemma {:induction false} ScanProducts(file: string, ds: seq<string>, env: Environment)
    requires ScanDirectives(file, ds, env).Success?
    ensures ProductsDeclared(file, ScanDirectives(file, ds, env).value.products, ProducesOf(ds))
    decreases |ds|
  {
    if |ds| > 0 {
      var init := ds[..|ds| - 1];
      var d := ds[|ds| - 1];
      assert ds == init + [d];
      ScanDirectivesSnoc(file, init, d, env);
      ScanProducts(file, init, env);
      var node := ScanDirectives(file, init, env).value;
      ScanStepProducts(file, node, d, env);
      ProducesOfAppend(init, [d]);
      assert ProducesOf([d]) == (if IsProduces(d) then [d] else []) + ProducesOf([]);
      var after := ScanDirectives(file, ds, env).value.products;
      var pds := ProducesOf(ds);
      assert pds == ProducesOf(init) + (if IsProduces(d) then [d] else []);
      forall k | 0 <= k < |after|
        ensures after[k].name == DeclaredName(pds[k]) && after[k].path == CompletePath(file, after[k].name)
      {
        if k < |node.products| {
          assert after[k] == after[..|node.products|][k] == node.products[k];
          assert pds[k] == ProducesOf(init)[k];
        } else {
          assert pds[k] == d;
        }
      }
    }
  }

  /** The command of a product is expanded with the requirements declared
      above its `@produces` line, not with all of the file's requirements. */
  lemma ScanProducesCommand(file: string, ds: seq<string>, d: string, env: Environment)
    requires ScanDirectives(file, ds, env).Success?
    requires IsProduces(d) && NextLiteral(d, 0).Some?
    ensures var (a, e) := NextLiteral(d, 0).value;
      var name := Unquote(d[a..e]);
      var before := ScanDirectives(file, ds, env).value;
      ScanDirectives(file, ds + [d], env) == Success(before.(products := before.products + [
        Product(name, CompletePath(file, name),
          SubstituteTokens(ExpandEnvironment(CommandTemplate(d, e), env), file, RequiresOf(file, ds), name))]))
  {
    assert (ds + [d])[..|ds|] == ds;
    ScanRequirements(file, ds, env);
  }
}
