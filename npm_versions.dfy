/**
 * The npm dependency lookup (src/plugins/npm/analyze_package_json_content.rs):
 * `get_dependency_version` reads one package's version range from the
 * `dependencies` of a package.json, falling back to `devDependencies`, and
 * strips the range operators `~` and `^`; the keyword loop of
 * `analyze_package_json_content` tries each product and then its configured
 * equivalent names, and records the first version found under the product's
 * own name.
 */
module NpmVersions {
  import opened Wrappers
  import opened Text
  import opened JsonValues

  /** The range operators stripped from the front of a version. */
  const RangeOperators: set<char> := {'~', '^'}

  /** `get_dependency_version`. */
  function GetDependencyVersion(dependencies: Json, devDependencies: Json, packageName: string): Option<string> {
    var found := match Get(dependencies, packageName)
      case Some(v) => Some(v)
      case None => Get(devDependencies, packageName);
    match found
    case None => None
    case Some(v) =>
      match AsStr(v)
      case None => None
      case Some(cycle) => Some(TrimStartBy(cycle, RangeOperators))
  }

  /** The names tried for a product: the product itself, then its equivalences in their listed order. */
  function Keywords(product: string, equivalences: map<string, seq<string>>): (keywords: seq<string>)
    ensures |keywords| >= 1 && keywords[0] == product
    ensures product in equivalences ==> keywords[1..] == equivalences[product]
    ensures product !in equivalences ==> keywords == [product]
  {
    [product] + if product in equivalences then equivalences[product] else []
  }

  /** The inner loop: the version of the first keyword that yields one. */
  function FirstVersion(keywords: seq<string>, dependencies: Json, devDependencies: Json): Option<string>
    decreases |keywords|
  {
    if keywords == [] then None
    else
      match GetDependencyVersion(dependencies, devDependencies, keywords[0])
      case Some(cycle) => Some(cycle)
      case None => FirstVersion(keywords[1..], dependencies, devDependencies)
  }

  /** The outer loop over the products, as a fold from the first product to the last. */
  function Versions(products: seq<string>, dependencies: Json, devDependencies: Json,
                    equivalences: map<string, seq<string>>): map<string, string>
    decreases |products|
  {
    if products == [] then map[]
    else
      var product := products[|products| - 1];
      var before := Versions(products[..|products| - 1], dependencies, devDependencies, equivalences);
      match FirstVersion(Keywords(product, equivalences), dependencies, devDependencies)
      case Some(cycle) => before[product := cycle]
      case None => before
  }

  /** `package_json.get(section).unwrap_or(&json!({}))`. */
  function Section(packageJson: Json, name: string): Json {
    Get(packageJson, name).GetOr(Object(map[]))
  }

  /**
   * The `versions` object of the result. `packageJson` is the fetched file, or
   * nothing when the repository has none.
   */
  function AnalyzedVersions(packageJson: Option<Json>, products: seq<string>,
                            equivalences: map<string, seq<string>>): map<string, string>
  {
    match packageJson
    case None => map[]
    case Some(json) => Versions(products, Section(json, "dependencies"), Section(json, "devDependencies"), equivalences)
  }

  /**
   * The keyword loop: for each product in turn, the inner loop over its
   * keywords, and the insertion under the product's name once a keyword yields
   * a version.
   */
  method ResolveVersions(products: seq<string>, dependencies: Json, devDependencies: Json,
                         equivalences: map<string, seq<string>>) returns (versions: map<string, string>)
    ensures versions == Versions(products, dependencies, devDependencies, equivalences)
  {
    versions := map[];
    for p := 0 to |products|
      invariant versions == Versions(products[..p], dependencies, devDependencies, equivalences)
    {
      var product := products[p];
      var keywords := [product];
      if product in equivalences {
        keywords := keywords + equivalences[product];
      }
      assert keywords == Keywords(product, equivalences);
      VersionsStep(products, p, dependencies, devDependencies, equivalences);
      var found := FindVersion(keywords, dependencies, devDependencies);
      if found.Some? {
        versions := versions[product := found.value];
      }
    }
    assert products[..|products|] == products;
  }

  /** The inner loop: try the keywords in order and stop at the first that yields a version. */
  method FindVersion(keywords: seq<string>, dependencies: Json, devDependencies: Json) returns (found: Option<string>)
    ensures found == FirstVersion(keywords, dependencies, devDependencies)
  {
    var k := 0;
    while k < |keywords|
      invariant 0 <= k <= |keywords|
      invariant FirstVersion(keywords, dependencies, devDependencies)
             == FirstVersion(keywords[k..], dependencies, devDependencies)
    {
      FirstVersionStep(keywords, k, dependencies, devDependencies);
      var cycle := GetDependencyVersion(dependencies, devDependencies, keywords[k]);
      if cycle.Some? {
        return cycle;
      }
      k := k + 1;
    }
    return None;
  }

  /** One more product: its first found version, if any, is recorded under its name. */
  lemma VersionsStep(products: seq<string>, p: nat, dependencies: Json, devDependencies: Json,
                     equivalences: map<string, seq<string>>)
    requires p < |products|
    ensures var before := Versions(products[..p], dependencies, devDependencies, equivalences);
      var found := FirstVersion(Keywords(products[p], equivalences), dependencies, devDependencies);
      Versions(products[..p + 1], dependencies, devDependencies, equivalences) ==
        if found.Some? then before[products[p] := found.value] else before
  {
    var prefix := products[..p + 1];
    assert prefix[..p] == products[..p] && prefix[p] == products[p];
    VersionsLast(prefix, dependencies, devDependencies, equivalences);
  }

  lemma VersionsLast(products: seq<string>, dependencies: Json, devDependencies: Json,
                     equivalences: map<string, seq<string>>)
    requires products != []
    ensures var n := |products| - 1;
      var before := Versions(products[..n], dependencies, devDependencies, equivalences);
      var found := FirstVersion(Keywords(products[n], equivalences), dependencies, devDependencies);
      Versions(products, dependencies, devDependencies, equivalences) ==
        if found.Some? then before[products[n] := found.value] else before
  {
  }

  /** One more keyword: it decides when it yields a version, otherwise the search goes on. */
  lemma FirstVersionStep(keywords: seq<string>, k: nat, dependencies: Json, devDependencies: Json)
    requires k < |keywords|
    ensures FirstVersion(keywords[k..], dependencies, devDependencies) ==
      match GetDependencyVersion(dependencies, devDependencies, keywords[k])
      case Some(cycle) => Some(cycle)
      case None => FirstVersion(keywords[k + 1..], dependencies, devDependencies)
  {
    assert keywords[k..][1..] == keywords[k + 1..];
  }

  // ---------------------------------------------------------------------------
  // What the lookup promises

  /** `devDependencies` is consulted only when `dependencies` has no such key. */
  lemma DevDependenciesOnlyAsFallback(dependencies: Json, devDependencies: Json, otherDev: Json, name: string)
    requires Get(dependencies, name).Some?
    ensures GetDependencyVersion(dependencies, devDependencies, name) == GetDependencyVersion(dependencies, otherDev, name)
  {
  }

  /** A key present in `dependencies` with a value that is not a string gives nothing, whatever `devDependencies` holds. */
  lemma NonStringGivesNothing(dependencies: Json, devDependencies: Json, name: string)
    requires dependencies.Object? && name in dependencies.fields && !dependencies.fields[name].String?
    ensures GetDependencyVersion(dependencies, devDependencies, name) == None
  {
  }

  /**
   * A version is found exactly when the first section that has the key holds a
   * string there, and it is that string with its leading run of `~` and `^`
   * removed: the string is that run followed by the version, and the version
   * does not start with either operator.
   */
  lemma VersionIsStrippedString(dependencies: Json, devDependencies: Json, name: string)
    ensures var source := if Get(dependencies, name).Some? then dependencies else devDependencies;
      GetDependencyVersion(dependencies, devDependencies, name).Some? <==>
        Get(source, name).Some? && Get(source, name).value.String?
    ensures var source := if Get(dependencies, name).Some? then dependencies else devDependencies;
      GetDependencyVersion(dependencies, devDependencies, name).Some? ==>
        var raw, cycle := source.fields[name].s, GetDependencyVersion(dependencies, devDependencies, name).value;
        && |cycle| <= |raw|
        && raw == raw[..|raw| - |cycle|] + cycle
        && (forall i :: 0 <= i < |raw| - |cycle| ==> raw[i] in RangeOperators)
        && (cycle != [] ==> cycle[0] != '~' && cycle[0] != '^')
  {
    var source := if Get(dependencies, name).Some? then dependencies else devDependencies;
    if Get(source, name).Some? && Get(source, name).value.String? {
      var raw := source.fields[name].s;
      var cycle := TrimStartBy(raw, RangeOperators);
      TrimStartByDropsPrefix(raw, RangeOperators);
      assert GetDependencyVersion(dependencies, devDependencies, name) == Some(cycle);
      assert raw == raw[..|raw| - |cycle|] + raw[|raw| - |cycle|..];
    }
  }

  /**
   * The first keyword that yields a version decides: the inner loop finds a
   * version exactly when some keyword yields one, and it is the version of the
   * first such keyword.
   */
  lemma {:induction false} FirstKeywordWins(keywords: seq<string>, dependencies: Json, devDependencies: Json)
    ensures FirstVersion(keywords, dependencies, devDependencies).None? <==>
      forall i :: 0 <= i < |keywords| ==> GetDependencyVersion(dependencies, devDependencies, keywords[i]).None?
    ensures FirstVersion(keywords, dependencies, devDependencies).Some? ==>
      exists i :: 0 <= i < |keywords|
        && GetDependencyVersion(dependencies, devDependencies, keywords[i]) == FirstVersion(keywords, dependencies, devDependencies)
        && forall j :: 0 <= j < i ==> GetDependencyVersion(dependencies, devDependencies, keywords[j]).None?
    decreases |keywords|
  {
    if keywords != [] {
      var rest := keywords[1..];
      FirstKeywordWins(rest, dependencies, devDependencies);
      if GetDependencyVersion(dependencies, devDependencies, keywords[0]).None? {
        forall i | 0 <= i < |rest| ensures rest[i] == keywords[i + 1] { }
        if FirstVersion(rest, dependencies, devDependencies).Some? {
          var i :| 0 <= i < |rest|
            && GetDependencyVersion(dependencies, devDependencies, rest[i]) == FirstVersion(rest, dependencies, devDependencies)
            && forall j :: 0 <= j < i ==> GetDependencyVersion(dependencies, devDependencies, rest[j]).None?;
          assert forall j :: 0 <= j < i + 1 ==> GetDependencyVersion(dependencies, devDependencies, keywords[j]).None? by {
            forall j | 0 <= j < i + 1 ensures GetDependencyVersion(dependencies, devDependencies, keywords[j]).None? {
              if j > 0 { assert keywords[j] == rest[j - 1]; }
            }
          }
        }
      }
    }
  }

  /**
   * A product is in `versions` exactly when it is one of the products and one
   * of its keywords yields a version; the version is stored under the product's
   * own name, never under the keyword that found it.
   */
  lemma {:induction false} VersionsByProduct(products: seq<string>, dependencies: Json, devDependencies: Json,
                                             equivalences: map<string, seq<string>>, name: string)
    ensures var versions := Versions(products, dependencies, devDependencies, equivalences);
      name in versions <==> name in products && FirstVersion(Keywords(name, equivalences), dependencies, devDependencies).Some?
    ensures var versions := Versions(products, dependencies, devDependencies, equivalences);
      name in versions ==> versions[name] == FirstVersion(Keywords(name, equivalences), dependencies, devDependencies).value
    decreases |products|
  {
    if products != [] {
      var init := products[..|products| - 1];
      VersionsByProduct(init, dependencies, devDependencies, equivalences, name);
      assert products == init + [products[|products| - 1]];
    }
  }

  /** With no package.json the `versions` object is empty. */
  lemma NoPackageJsonNoVersions(products: seq<string>, equivalences: map<string, seq<string>>)
    ensures AnalyzedVersions(None, products, equivalences) == map[]
  {
  }

  /** A package.json without either section finds nothing. */
  lemma {:induction false} NoSectionsNoVersions(json: Json, products: seq<string>, equivalences: map<string, seq<string>>)
    requires Get(json, "dependencies").None? && Get(json, "devDependencies").None?
    ensures AnalyzedVersions(Some(json), products, equivalences) == map[]
  {
    forall name | true
      ensures name !in AnalyzedVersions(Some(json), products, equivalences)
    {
      VersionsByProduct(products, Object(map[]), Object(map[]), equivalences, name);
      FirstKeywordWins(Keywords(name, equivalences), Object(map[]), Object(map[]));
    }
  }

  /** `{"dependencies": {"@angular/core": "^15.2.0"}}` with `angular` equivalent to `@angular/core` records `angular: 15.2.0`. */
  lemma EquivalentNameExample()
    ensures var deps := Object(map["@angular/core" := String("^15.2.0")]);
      Versions(["angular"], deps, Object(map[]), map["angular" := ["@angular/core"]]) == map["angular" := "15.2.0"]
  {
    var deps := Object(map["@angular/core" := String("^15.2.0")]);
    var equivalences := map["angular" := ["@angular/core"]];
    AngularLookups();
    assert FirstVersion(["@angular/core"], deps, Object(map[])) == Some("15.2.0");
    var keywords := Keywords("angular", equivalences);
    assert keywords == ["angular", "@angular/core"];
    assert keywords[1..] == ["@angular/core"];
    assert ["angular"][..0] == [];
  }

  /** The product name is not a dependency; its equivalent is, with a caret range. */
  lemma AngularLookups()
    ensures var deps := Object(map["@angular/core" := String("^15.2.0")]);
      && GetDependencyVersion(deps, Object(map[]), "angular") == None
      && GetDependencyVersion(deps, Object(map[]), "@angular/core") == Some("15.2.0")
  {
    assert "angular" != "@angular/core";
    CaretStripped();
  }

  lemma CaretStripped()
    ensures TrimStartBy("^15.2.0", RangeOperators) == "15.2.0"
  {
    var cycle := "^15.2.0";
    assert cycle[0] in RangeOperators;
    assert cycle[1..] == "15.2.0";
    assert '1' !in RangeOperators;
    assert TrimStartBy("15.2.0", RangeOperators) == "15.2.0";
  }
}
