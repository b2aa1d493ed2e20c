/** The project-type classifier and the default-path table (bin/paths.js).
    The filesystem checks become the set of file names that exist, and the
    `require` of `package.json` becomes its outcome: the parsed value, or
    the message of the error `require` throws. */
module Paths {
  import opened Results
  import Js

  datatype ProjectType = Next | Gatsby | Vite | Angular | React | Vue | Node | Unknown

  /** What the classifier reads from the working directory. */
  datatype ProjectFacts = ProjectFacts(files: set<string>, package: Result<Js.Value>)

  /** The three paths the CLI offers as defaults. */
  datatype DefaultPaths = DefaultPaths(fontsDir: string, cssFile: string, configFile: string)

  const PackageJson := "package.json"

  /** A config file of the framework is present (next, gatsby and vite
      only; angular, react and vue have none that counts). */
  predicate HasConfigFile(files: set<string>, t: ProjectType) {
    match t
    case Next => "next.config.js" in files || "next.config.mjs" in files
    case Gatsby => "gatsby-config.js" in files
    case Vite => "vite.config.js" in files || "vite.config.ts" in files
    case _ => false
  }

  /** The dependency name each framework is recognised by. */
  function PackageName(t: ProjectType): string
    requires t !in {Node, Unknown}
  {
    match t
    case Next => "next"
    case Gatsby => "gatsby"
    case Vite => "vite"
    case Angular => "@angular/core"
    case React => "react"
    case Vue => "vue"
  }

  /** `pkg.dependencies?.[name] || pkg.devDependencies?.[name]`, as a truth
      value; reading `dependencies` of `null` throws. */
  function Depends(pkg: Js.Value, name: string): (r: Result<bool>)
    ensures r.Err? <==> pkg.Null? || pkg.Undef?
    ensures r.Ok? ==> (r.value <==>
      Js.Truthy(Js.OptGet(Js.Get(pkg, "dependencies").value, name))
      || Js.Truthy(Js.OptGet(Js.Get(pkg, "devDependencies").value, name)))
  {
    var deps :- Js.Get(pkg, "dependencies");
    if Js.Truthy(Js.OptGet(deps, name)) then Ok(true)
    else
      Ok(Js.Truthy(Js.OptGet(Js.Get(pkg, "devDependencies").value, name)))
  }

  /** One test of the chain: a config file, when the framework has one,
      checked before the dependencies (so that `||` never reads them). */
  function Test(files: set<string>, pkg: Js.Value, t: ProjectType): Result<bool>
    requires t !in {Node, Unknown}
  {
    if HasConfigFile(files, t) then Ok(true) else Depends(pkg, PackageName(t))
  }

  /** detectProjectType: the chain of early returns. */
  function DetectProjectType(facts: ProjectFacts): (r: Result<ProjectType>)
    ensures r == Ok(Unknown) <==> PackageJson !in facts.files
    ensures PackageJson in facts.files && facts.package.Err? ==> r == Err(facts.package.msg)
  {
    if PackageJson !in facts.files then Ok(Unknown)
    else
      var pkg :- facts.package;
      var files := facts.files;
      var next :- Test(files, pkg, Next);
      if next then Ok(Next) else
      var gatsby :- Test(files, pkg, Gatsby);
      if gatsby then Ok(Gatsby) else
      var vite :- Test(files, pkg, Vite);
      if vite then Ok(Vite) else
      var angular :- Test(files, pkg, Angular);
      if angular then Ok(Angular) else
      var react :- Test(files, pkg, React);
      if react then Ok(React) else
      var vue :- Test(files, pkg, Vue);
      if vue then Ok(Vue) else
      Ok(Node)
  }

  // ---------------------------------------------------------------------
  // A reference statement of the rule: the first signalled type in a
  // fixed priority order.

  const Priority: seq<ProjectType> := [Next, Gatsby, Vite, Angular, React, Vue]

  /** Type `t` is signalled by a config file or by a truthy dependency or
      devDependency entry of a non-null package. */
  predicate Signalled(files: set<string>, pkg: Js.Value, t: ProjectType)
    requires t !in {Node, Unknown} && !(pkg.Null? || pkg.Undef?)
  {
    HasConfigFile(files, t) || Depends(pkg, PackageName(t)).value
  }

  /** The first type of `order` that is signalled, or `Node`. */
  function FirstSignalled(files: set<string>, pkg: Js.Value, order: seq<ProjectType>): (t: ProjectType)
    requires !(pkg.Null? || pkg.Undef?)
    requires forall k :: 0 <= k < |order| ==> order[k] !in {Node, Unknown}
    ensures t == Node || t in order
  {
    if order == [] then Node
    else if Signalled(files, pkg, order[0]) then order[0]
    else FirstSignalled(files, pkg, order[1..])
  }

  lemma StepSignalled(files: set<string>, pkg: Js.Value, t: ProjectType, rest: seq<ProjectType>)
    requires !(pkg.Null? || pkg.Undef?) && t !in {Node, Unknown}
    requires forall k :: 0 <= k < |rest| ==> rest[k] !in {Node, Unknown}
    ensures FirstSignalled(files, pkg, [t] + rest)
      == if Signalled(files, pkg, t) then t else FirstSignalled(files, pkg, rest)
    ensures Test(files, pkg, t) == Ok(Signalled(files, pkg, t))
  {
    assert ([t] + rest)[1..] == rest;
  }

  /** Without `package.json` the type is `unknown`, whatever else exists. */
  lemma NoPackageJson(facts: ProjectFacts)
    requires PackageJson !in facts.files
    ensures DetectProjectType(facts) == Ok(Unknown)
  {
  }

  /** With a `package.json` that loads as a non-null value, the type is the
      first signalled one in the order next, gatsby, vite, angular, react,
      vue, and `node` when none is. */
  lemma DetectIsFirstSignalled(facts: ProjectFacts)
    requires PackageJson in facts.files && facts.package.Ok?
    requires !(facts.package.value.Null? || facts.package.value.Undef?)
    ensures DetectProjectType(facts) == Ok(FirstSignalled(facts.files, facts.package.value, Priority))
  {
    var files, pkg := facts.files, facts.package.value;
    assert Priority == [Next] + [Gatsby, Vite, Angular, React, Vue];
    assert [Gatsby, Vite, Angular, React, Vue] == [Gatsby] + [Vite, Angular, React, Vue];
    assert [Vite, Angular, React, Vue] == [Vite] + [Angular, React, Vue];
    assert [Angular, React, Vue] == [Angular] + [React, Vue];
    assert [React, Vue] == [React] + [Vue];
    assert [Vue] == [Vue] + [];
    StepSignalled(files, pkg, Next, [Gatsby, Vite, Angular, React, Vue]);
    StepSignalled(files, pkg, Gatsby, [Vite, Angular, React, Vue]);
    StepSignalled(files, pkg, Vite, [Angular, React, Vue]);
    StepSignalled(files, pkg, Angular, [React, Vue]);
    StepSignalled(files, pkg, React, [Vue]);
    StepSignalled(files, pkg, Vue, []);
  }

  /** A config file of next, gatsby or vite decides the type on its own once
      no earlier type is signalled; in particular `next.config.js` or
      `next.config.mjs` always gives `next`, without reading the package. */
  lemma NextConfigWins(facts: ProjectFacts)
    requires PackageJson in facts.files && facts.package.Ok?
    requires "next.config.js" in facts.files || "next.config.mjs" in facts.files
    ensures DetectProjectType(facts) == Ok(Next)
  {
  }

  /** angular, react and vue come only from the dependencies: their
      detection reads the package. */
  lemma DependencyOnly(facts: ProjectFacts)
    requires DetectProjectType(facts).Ok?
    requires DetectProjectType(facts).value in {Angular, React, Vue}
    ensures facts.package.Ok? && !(facts.package.value.Null? || facts.package.value.Undef?)
    ensures Depends(facts.package.value, PackageName(DetectProjectType(facts).value)) == Ok(true)
  {
  }

  /** A `package.json` that parses to `null` makes the classifier throw,
      unless a next config file answers first. */
  lemma NullPackage(files: set<string>)
    requires PackageJson in files
    requires "next.config.js" !in files && "next.config.mjs" !in files
    ensures DetectProjectType(ProjectFacts(files, Ok(Js.Null)))
      == Err("Cannot read properties of null (reading 'dependencies')")
  {
    assert Js.ReadError(Js.Null, "dependencies") == "Cannot read properties of null (reading 'dependencies')";
  }

  /** The `require` error of `package.json` is the classifier's error. */
  lemma UnloadablePackage(files: set<string>, msg: string)
    requires PackageJson in files
    ensures DetectProjectType(ProjectFacts(files, Err(msg))) == Err(msg)
  {
  }

  // ---------------------------------------------------------------------
  // Default paths

  const Defaults := DefaultPaths("fonts", "styles/fonts.css", "tailwind.config.js")

  /** The table the switch of getDefaultPaths amounts to. */
  function PathsFor(t: ProjectType): (r: DefaultPaths)
    ensures r.configFile == "tailwind.config.js"
    ensures t in {Node, Unknown} <==> r == Defaults
  {
    match t
    case Next => DefaultPaths("public/fonts", "styles/fonts.css", Defaults.configFile)
    case Gatsby => DefaultPaths("static/fonts", "src/styles/fonts.css", Defaults.configFile)
    case React => DefaultPaths("public/fonts", "src/styles/fonts.css", Defaults.configFile)
    case Vite => DefaultPaths("public/fonts", "src/styles/fonts.css", Defaults.configFile)
    case Vue => DefaultPaths("public/fonts", "src/assets/styles/fonts.css", Defaults.configFile)
    case Angular => DefaultPaths("src/assets/fonts", "src/styles/fonts.css", Defaults.configFile)
    case Node => Defaults
    case Unknown => Defaults
  }

  /** The body of getDefaultPaths after detection: a `defaults` record whose
      fields the switch overwrites. */
  method DefaultPathsOf(projectType: ProjectType) returns (defaults: DefaultPaths)
    ensures defaults == PathsFor(projectType)
    ensures defaults.configFile == "tailwind.config.js"
  {
    defaults := DefaultPaths("fonts", "styles/fonts.css", "tailwind.config.js");
    match projectType {
      case Next =>
        defaults := defaults.(fontsDir := "public/fonts");
        defaults := defaults.(cssFile := "styles/fonts.css");
      case Gatsby =>
        defaults := defaults.(fontsDir := "static/fonts");
        defaults := defaults.(cssFile := "src/styles/fonts.css");
      case React =>
        defaults := defaults.(fontsDir := "public/fonts");
        defaults := defaults.(cssFile := "src/styles/fonts.css");
      case Vite =>
        defaults := defaults.(fontsDir := "public/fonts");
        defaults := defaults.(cssFile := "src/styles/fonts.css");
      case Vue =>
        defaults := defaults.(fontsDir := "public/fonts");
        defaults := defaults.(cssFile := "src/assets/styles/fonts.css");
      case Angular =>
        defaults := defaults.(fontsDir := "src/assets/fonts");
        defaults := defaults.(cssFile := "src/styles/fonts.css");
      case Node =>
      case Unknown =>
    }
  }

  /** getDefaultPaths: detection, then the table; a detection error
      propagates. */
  method GetDefaultPaths(facts: ProjectFacts) returns (r: Result<DefaultPaths>)
    ensures r.Ok? <==> DetectProjectType(facts).Ok?
    ensures r.Ok? ==> r.value == PathsFor(DetectProjectType(facts).value)
    ensures r.Err? ==> r.msg == DetectProjectType(facts).msg
  {
    var projectType := DetectProjectType(facts);
    if projectType.Err? {
      return Err(projectType.msg);
    }
    var defaults := DefaultPathsOf(projectType.value);
    return Ok(defaults);
  }

  /** The config file is `tailwind.config.js` for every project type. */
  lemma ConfigFileFixed(t: ProjectType)
    ensures PathsFor(t).configFile == "tailwind.config.js"
  {
  }

  /** `node` and `unknown` keep the defaults. */
  lemma FallbackTypesKeepDefaults(t: ProjectType)
    ensures t in {Node, Unknown} <==> PathsFor(t) == DefaultPaths("fonts", "styles/fonts.css", "tailwind.config.js")
  {
  }

  /** next, react, vite and vue, and only they, put fonts in `public/fonts`;
      react and vite share every path. */
  lemma PublicFonts(t: ProjectType)
    ensures PathsFor(t).fontsDir == "public/fonts" <==> t in {Next, React, Vite, Vue}
    ensures PathsFor(React) == PathsFor(Vite)
  {
  }
}
