/** The Tailwind config update (src/config.js): unless the existing file
    already mentions the family, load the config (or start from a fixed
    default), create whichever of `theme`, `theme.extend` and
    `theme.extend.fontFamily` is missing, set the family's entry, and write
    `module.exports = ` followed by the JSON rendering. The file system is
    the `file` argument, `JSON.stringify(…, null, 2)` is the `stringify`
    argument, and the write is the returned text. */
module Config {
  import opened Results
  import opened Text
  import Js

  /** The config file as the update finds it: absent, or present with its
      text and the outcome of `require`-ing it. */
  datatype ConfigFile = Absent | Present(text: string, loaded: Result<Js.Value>)

  const ErrorPrefix := "Failed to update Tailwind config: "
  const ExportPrefix := "module.exports = "

  /** The path of objects the family entry goes under. */
  const Levels: seq<string> := ["theme", "extend", "fontFamily"]

  /** The config written when there is none. */
  const DefaultConfig: Js.Value := Js.Obj(map[
    "content" := Js.Arr([Js.Str("./src/**/*.{js,jsx,ts,tsx}"), Js.Str("./public/index.html")], map[]),
    "theme" := Js.Obj(map["extend" := Js.Obj(map[])]),
    "plugins" := Js.Arr([], map[])])

  /** The key of the family's entry: the family lower-cased, nothing decoded. */
  function FamilyKey(family: string): string {
    ToLowerAscii(family)
  }

  /** The entry: the quoted family, then the `sans-serif` fallback. */
  function FamilyEntry(family: string): Js.Value {
    Js.Arr([Js.Str("'" + family + "'"), Js.Str("sans-serif")], map[])
  }

  // ---------------------------------------------------------------------
  // The specification: the effect of the level-creating statements and the
  // final assignment, one level at a time.

  /** `if (!v[p]) v[p] = {}` for `p = path[0]` and so on down `path`, then
      `…[key] = x` on the innermost level; each changed level is stored
      back into its parent. */
  function Install(v: Js.Value, path: seq<string>, key: string, x: Js.Value): (r: Result<Js.Value>)
    ensures r.Ok? && Js.IsContainer(v) ==> Js.IsContainer(r.value)
    ensures r.Ok? && !Js.IsContainer(v) ==> r.value == v
    decreases |path|
  {
    if path == [] then Js.Put(v, key, x)
    else
      var child :- Js.Get(v, path[0]);
      var v1 := Prepare(v, path[0]);
      var updated :- Install(Js.Get(v1, path[0]).value, path[1..], key, x);
      Js.Put(v1, path[0], updated)
  }

  /** `if (!v[p]) v[p] = {}` on a value that can be read. */
  function Prepare(v: Js.Value, p: string): (r: Js.Value)
    requires !(v.Undef? || v.Null?)
    ensures !(r.Undef? || r.Null?)
    ensures Js.IsContainer(v) ==> Js.IsContainer(r) && Js.Truthy(Js.Get(r, p).value)
    ensures !Js.IsContainer(v) ==> r == v
  {
    if Js.Truthy(Js.Get(v, p).value) then v else Js.Put(v, p, Js.Obj(map[])).value
  }

  /** What the update leaves to write: `None` when it skips, the updated
      config otherwise. */
  function ConfigUpdate(family: string, file: ConfigFile): (r: Result<Option<Js.Value>>)
    ensures r == Ok(None) <==> file.Present? && Contains(file.text, family)
    ensures file.Present? && !Contains(file.text, family) && file.loaded.Err? ==> r == Err(file.loaded.msg)
  {
    match file
    case Present(text, loaded) =>
      if Contains(text, family) then Ok(None)
      else
        var config :- loaded;
        var updated :- Install(config, Levels, FamilyKey(family), FamilyEntry(family));
        Ok(Some(updated))
    case Absent =>
      var updated :- Install(DefaultConfig, Levels, FamilyKey(family), FamilyEntry(family));
      Ok(Some(updated))
  }

  // ---------------------------------------------------------------------
  // The update as the source performs it

  /** The member chain `v.p1.p2…pn`. */
  function Read(v: Js.Value, path: seq<string>): Result<Js.Value>
    decreases |path|
  {
    if path == [] then Ok(v)
    else
      var child :- Js.Get(v, path[0]);
      Read(child, path[1..])
  }

  /** The assignment `v.p1.p2…pn = x`: the chain up to `pn` is read, `pn`
      is set on the object reached, and each updated object is stored
      back into its parent. */
  function Write(v: Js.Value, path: seq<string>, x: Js.Value): Result<Js.Value>
    requires |path| > 0
    decreases |path|
  {
    if |path| == 1 then Js.Put(v, path[0], x)
    else
      var child :- Js.Get(v, path[0]);
      var updated :- Write(child, path[1..], x);
      Js.Put(v, path[0], updated)
  }

  /** `if (!v.p1…pn) v.p1…pn = {}`: the chain is read (which throws at a
      missing intermediate level), and a falsy last level is replaced by an
      empty object. */
  function EnsureLevel(v: Js.Value, path: seq<string>): (r: Result<Js.Value>)
    requires |path| > 0
    ensures r.Err? <==> Read(v, path).Err?
    ensures r.Err? ==> r.msg == Read(v, path).msg
    ensures Read(v, path).Ok? && Js.Truthy(Read(v, path).value) ==> r == Ok(v)
    ensures Read(v, path[..|path| - 1]).Ok? && Js.IsContainer(Read(v, path[..|path| - 1]).value) ==>
      r.Ok? && Read(r.value, path).Ok? && Js.Truthy(Read(r.value, path).value)
  {
    ReadLast(v, path);
    var current :- Read(v, path);
    if Js.Truthy(current) then Ok(v)
    else
      WriteAfterRead(v, path, Js.Obj(map[]));
      Write(v, path, Js.Obj(map[]))
  }

  /** Reading a member chain is reading its last member from the object
      the rest of the chain reaches. */
  lemma {:induction false} ReadLast(v: Js.Value, path: seq<string>)
    requires |path| > 0
    ensures Read(v, path[..|path| - 1]).Ok? ==>
      Read(v, path) == Js.Get(Read(v, path[..|path| - 1]).value, path[|path| - 1])
    decreases |path|
  {
    var p, rest := path[0], path[1..];
    assert path == [p] + rest;
    ReadCons(v, p, rest);
    if rest == [] {
      assert path[..0] == [];
    } else {
      assert path[..|path| - 1] == [p] + rest[..|rest| - 1];
      ReadCons(v, p, rest[..|rest| - 1]);
      if Js.Get(v, p).Ok? {
        ReadLast(Js.Get(v, p).value, rest);
      }
    }
  }

  /** An assignment to a member chain that can be read succeeds, and when
      the last object of the chain is a container the chain then reads the
      assigned value. */
  lemma {:induction false} WriteAfterRead(v: Js.Value, path: seq<string>, x: Js.Value)
    requires |path| > 0 && Read(v, path).Ok?
    ensures Write(v, path, x).Ok?
    ensures Read(v, path[..|path| - 1]).Ok? && Js.IsContainer(Read(v, path[..|path| - 1]).value) ==>
      Read(Write(v, path, x).value, path) == Ok(x)
    decreases |path|
  {
    var p, rest := path[0], path[1..];
    assert path == [p] + rest;
    ReadCons(v, p, rest);
    if rest == [] {
      assert path[..0] == [];
      if Js.IsContainer(v) {
        ReadCons(Write(v, path, x).value, p, []);
      }
    } else {
      var child := Js.Get(v, p).value;
      WriteAfterRead(child, rest, x);
      WriteCons(v, p, rest, x);
      assert path[..|path| - 1] == [p] + rest[..|rest| - 1];
      ReadCons(v, p, rest[..|rest| - 1]);
      ReadCons(Write(v, path, x).value, p, rest);
    }
  }

  /** The three statements and the assignment, one after another. */
  function Sequential(v: Js.Value, key: string, x: Js.Value): Result<Js.Value> {
    var c1 :- EnsureLevel(v, ["theme"]);
    FromExtend(c1, key, x)
  }

  /** The statements from the one creating `theme.extend` on. */
  function FromExtend(c1: Js.Value, key: string, x: Js.Value): Result<Js.Value> {
    var c2 :- EnsureLevel(c1, ["theme", "extend"]);
    FromFontFamily(c2, key, x)
  }

  /** The statements from the one creating `theme.extend.fontFamily` on. */
  function FromFontFamily(c2: Js.Value, key: string, x: Js.Value): Result<Js.Value> {
    var c3 :- EnsureLevel(c2, Levels);
    Write(c3, Levels + [key], x)
  }

  /** The body of updateTailwindConfig's `try` between loading the config
      and writing it. */
  method AddFontFamily(config0: Js.Value, key: string, entry: Js.Value) returns (r: Result<Js.Value>)
    ensures r == Install(config0, Levels, key, entry)
  {
    SequentialIsInstall(config0, key, entry);
    var config := config0;
    config :- EnsureLevel(config, ["theme"]);
    config :- EnsureLevel(config, ["theme", "extend"]);
    config :- EnsureLevel(config, Levels);
    config :- Write(config, Levels + [key], entry);
    r := Ok(config);
  }

  /** `Install`'s way of storing an updated level back into its parent. */
  function Lift(v: Js.Value, p: string, r: Result<Js.Value>): Result<Js.Value> {
    match r
    case Err(m) => Err(m)
    case Ok(u) => Js.Put(v, p, u)
  }

  predicate NotNullish(v: Js.Value) {
    !(v.Undef? || v.Null?)
  }

  lemma LiftAfterPut(v: Js.Value, p: string, y: Js.Value, r: Result<Js.Value>)
    requires NotNullish(v)
    ensures Lift(Js.Put(v, p, y).value, p, r) == Lift(v, p, r)
  {
    if r.Ok? {
      Js.PutTwice(v, p, y, r.value);
    }
  }

  /** One level of `Install`, unfolded. */
  lemma InstallCons(v: Js.Value, p: string, rest: seq<string>, key: string, x: Js.Value)
    ensures Js.Get(v, p).Err? ==> Install(v, [p] + rest, key, x) == Err(Js.Get(v, p).msg)
    ensures Js.Get(v, p).Ok? ==>
      Install(v, [p] + rest, key, x) == Lift(Prepare(v, p), p, Install(Js.Get(Prepare(v, p), p).value, rest, key, x))
  {
    assert ([p] + rest)[0] == p;
    assert ([p] + rest)[1..] == rest;
  }

  /** One step of a member chain, unfolded. */
  lemma ReadCons(v: Js.Value, p: string, rest: seq<string>)
    ensures Js.Get(v, p).Err? ==> Read(v, [p] + rest) == Err(Js.Get(v, p).msg)
    ensures Js.Get(v, p).Ok? ==> Read(v, [p] + rest) == Read(Js.Get(v, p).value, rest)
  {
    assert ([p] + rest)[0] == p;
    assert ([p] + rest)[1..] == rest;
  }

  /** One step of an assignment through a member chain, unfolded. */
  lemma WriteCons(v: Js.Value, p: string, rest: seq<string>, x: Js.Value)
    requires |rest| > 0
    ensures Js.Get(v, p).Err? ==> Write(v, [p] + rest, x) == Err(Js.Get(v, p).msg)
    ensures Js.Get(v, p).Ok? ==> Write(v, [p] + rest, x) == Lift(v, p, Write(Js.Get(v, p).value, rest, x))
  {
    assert ([p] + rest)[0] == p;
    assert ([p] + rest)[1..] == rest;
  }

  /** The first statement against the outermost level of `Install`. */
  lemma Stage1(v: Js.Value, key: string, x: Js.Value)
    ensures Js.Get(v, "theme").Err? ==>
      EnsureLevel(v, ["theme"]) == Err(Js.Get(v, "theme").msg)
      && Install(v, Levels, key, x) == Err(Js.Get(v, "theme").msg)
    ensures Js.Get(v, "theme").Ok? ==>
      EnsureLevel(v, ["theme"]).Ok? && NotNullish(EnsureLevel(v, ["theme"]).value)
      && Install(v, Levels, key, x) == Lift(EnsureLevel(v, ["theme"]).value, "theme",
           Install(Js.Get(EnsureLevel(v, ["theme"]).value, "theme").value, ["extend", "fontFamily"], key, x))
  {
    assert Levels == ["theme"] + ["extend", "fontFamily"];
    InstallCons(v, "theme", ["extend", "fontFamily"], key, x);
    ReadCons(v, "theme", []);
  }

  /** The second statement against the middle level of `Install`. */
  lemma Stage2(c1: Js.Value, key: string, x: Js.Value)
    requires NotNullish(c1)
    ensures var t1 := Js.Get(c1, "theme").value;
      Js.Get(t1, "extend").Err? ==>
        EnsureLevel(c1, ["theme", "extend"]) == Err(Js.Get(t1, "extend").msg)
        && Install(t1, ["extend", "fontFamily"], key, x) == Err(Js.Get(t1, "extend").msg)
    ensures var t1 := Js.Get(c1, "theme").value;
      Js.Get(t1, "extend").Ok? ==>
        EnsureLevel(c1, ["theme", "extend"]).Ok?
        && var c2 := EnsureLevel(c1, ["theme", "extend"]).value;
        var t2 := Js.Get(c2, "theme").value;
        Js.IsContainer(c1) && Js.IsContainer(c2) && NotNullish(t2)
        && (c2 == c1 || c2 == Js.Put(c1, "theme", t2).value)
        && Install(t1, ["extend", "fontFamily"], key, x)
          == Lift(t2, "extend", Install(Js.Get(t2, "extend").value, ["fontFamily"], key, x))
  {
    var t1 := Js.Get(c1, "theme").value;
    assert ["extend", "fontFamily"] == ["extend"] + ["fontFamily"];
    InstallCons(t1, "extend", ["fontFamily"], key, x);
    EnsureExtend(c1);
  }

  /** The statement creating `theme.extend`, on its own. */
  lemma EnsureExtend(c1: Js.Value)
    requires NotNullish(c1)
    ensures var t1 := Js.Get(c1, "theme").value;
      Js.Get(t1, "extend").Err? ==> EnsureLevel(c1, ["theme", "extend"]) == Err(Js.Get(t1, "extend").msg)
    ensures var t1 := Js.Get(c1, "theme").value;
      Js.Get(t1, "extend").Ok? ==>
        EnsureLevel(c1, ["theme", "extend"]).Ok?
        && var c2 := EnsureLevel(c1, ["theme", "extend"]).value;
        var t2 := Js.Get(c2, "theme").value;
        Js.IsContainer(c1) && Js.IsContainer(c2) && NotNullish(t2)
        && (c2 == c1 || c2 == Js.Put(c1, "theme", t2).value)
        && t2 == Prepare(t1, "extend")
  {
    var t1 := Js.Get(c1, "theme").value;
    assert ["theme", "extend"] == ["theme"] + ["extend"];
    ReadCons(c1, "theme", ["extend"]);
    ReadCons(t1, "extend", []);
    WriteCons(c1, "theme", ["extend"], Js.Obj(map[]));
  }

  /** The third statement against the innermost level of `Install`. */
  lemma Stage3(c2: Js.Value, key: string, x: Js.Value)
    requires Js.IsContainer(c2) && NotNullish(Js.Get(c2, "theme").value)
    ensures var e2 := Js.Get(Js.Get(c2, "theme").value, "extend").value;
      Js.Get(e2, "fontFamily").Err? ==>
        EnsureLevel(c2, Levels) == Err(Js.Get(e2, "fontFamily").msg)
        && Install(e2, ["fontFamily"], key, x) == Err(Js.Get(e2, "fontFamily").msg)
    ensures var t2 := Js.Get(c2, "theme").value;
      var e2 := Js.Get(t2, "extend").value;
      Js.Get(e2, "fontFamily").Ok? ==>
        EnsureLevel(c2, Levels).Ok?
        && var c3 := EnsureLevel(c2, Levels).value;
        var t3 := Js.Get(c3, "theme").value;
        var e3 := Js.Get(t3, "extend").value;
        Js.IsContainer(c3) && Js.IsContainer(t2) && Js.IsContainer(t3) && NotNullish(e3)
        && (c3 == c2 || c3 == Js.Put(c2, "theme", t3).value)
        && (t3 == t2 || t3 == Js.Put(t2, "extend", e3).value)
        && Install(e2, ["fontFamily"], key, x)
          == Lift(e3, "fontFamily", Js.Put(Js.Get(e3, "fontFamily").value, key, x))
  {
    var e2 := Js.Get(Js.Get(c2, "theme").value, "extend").value;
    assert ["fontFamily"] == ["fontFamily"] + [];
    InstallCons(e2, "fontFamily", [], key, x);
    EnsureFontFamily(c2);
  }

  /** The statement creating `theme.extend.fontFamily`, on its own. */
  lemma EnsureFontFamily(c2: Js.Value)
    requires Js.IsContainer(c2) && NotNullish(Js.Get(c2, "theme").value)
    ensures var e2 := Js.Get(Js.Get(c2, "theme").value, "extend").value;
      Js.Get(e2, "fontFamily").Err? ==> EnsureLevel(c2, Levels) == Err(Js.Get(e2, "fontFamily").msg)
    ensures var t2 := Js.Get(c2, "theme").value;
      var e2 := Js.Get(t2, "extend").value;
      Js.Get(e2, "fontFamily").Ok? ==>
        EnsureLevel(c2, Levels).Ok?
        && var c3 := EnsureLevel(c2, Levels).value;
        var t3 := Js.Get(c3, "theme").value;
        var e3 := Js.Get(t3, "extend").value;
        Js.IsContainer(c3) && Js.IsContainer(t2) && Js.IsContainer(t3) && NotNullish(e3)
        && (c3 == c2 || c3 == Js.Put(c2, "theme", t3).value)
        && (t3 == t2 || t3 == Js.Put(t2, "extend", e3).value)
        && e3 == Prepare(e2, "fontFamily")
  {
    var t2 := Js.Get(c2, "theme").value;
    var e2 := Js.Get(t2, "extend").value;
    assert Levels == ["theme"] + (["extend"] + ["fontFamily"]);
    ReadCons(c2, "theme", ["extend", "fontFamily"]);
    ReadCons(t2, "extend", ["fontFamily"]);
    ReadCons(e2, "fontFamily", []);
    WriteCons(c2, "theme", ["extend", "fontFamily"], Js.Obj(map[]));
    WriteCons(t2, "extend", ["fontFamily"], Js.Obj(map[]));
  }

  /** The assignment, with the chain it reads. */
  lemma Stage4(c3: Js.Value, key: string, x: Js.Value)
    requires Js.IsContainer(c3) && Js.IsContainer(Js.Get(c3, "theme").value)
    requires NotNullish(Js.Get(Js.Get(c3, "theme").value, "extend").value)
    ensures var t3 := Js.Get(c3, "theme").value;
      var e3 := Js.Get(t3, "extend").value;
      Write(c3, Levels + [key], x)
        == Lift(c3, "theme", Lift(t3, "extend", Lift(e3, "fontFamily", Js.Put(Js.Get(e3, "fontFamily").value, key, x))))
  {
    var t3 := Js.Get(c3, "theme").value;
    var e3 := Js.Get(t3, "extend").value;
    assert Levels + [key] == ["theme"] + (["extend"] + (["fontFamily"] + [key]));
    WriteCons(c3, "theme", ["extend", "fontFamily", key], x);
    WriteCons(t3, "extend", ["fontFamily", key], x);
    WriteCons(e3, "fontFamily", [key], x);
  }

  /** The last two statements are the innermost level of `Install`, stored
      back through `theme.extend`. */
  lemma FromFontFamilyIsInstall(c2: Js.Value, key: string, x: Js.Value)
    requires Js.IsContainer(c2) && NotNullish(Js.Get(c2, "theme").value)
    ensures var t2 := Js.Get(c2, "theme").value;
      FromFontFamily(c2, key, x)
        == Lift(c2, "theme", Lift(t2, "extend", Install(Js.Get(t2, "extend").value, ["fontFamily"], key, x)))
  {
    var t2 := Js.Get(c2, "theme").value;
    Stage3(c2, key, x);
    var e2 := Js.Get(t2, "extend").value;
    if Js.Get(e2, "fontFamily").Ok? {
      var c3 := EnsureLevel(c2, Levels).value;
      var t3 := Js.Get(c3, "theme").value;
      var e3 := Js.Get(t3, "extend").value;
      Stage4(c3, key, x);
      var inner := Lift(e3, "fontFamily", Js.Put(Js.Get(e3, "fontFamily").value, key, x));
      if t3 != t2 {
        LiftAfterPut(t2, "extend", e3, inner);
      }
      if c3 != c2 {
        LiftAfterPut(c2, "theme", t3, Lift(t2, "extend", inner));
      }
    }
  }

  /** The last three statements are the two inner levels of `Install`,
      stored back into `theme`. */
  lemma FromExtendIsInstall(c1: Js.Value, key: string, x: Js.Value)
    requires NotNullish(c1)
    ensures FromExtend(c1, key, x)
      == Lift(c1, "theme", Install(Js.Get(c1, "theme").value, ["extend", "fontFamily"], key, x))
  {
    Stage2(c1, key, x);
    var t1 := Js.Get(c1, "theme").value;
    if Js.Get(t1, "extend").Ok? {
      var c2 := EnsureLevel(c1, ["theme", "extend"]).value;
      var t2 := Js.Get(c2, "theme").value;
      FromFontFamilyIsInstall(c2, key, x);
      var middle := Lift(t2, "extend", Install(Js.Get(t2, "extend").value, ["fontFamily"], key, x));
      if c2 != c1 {
        LiftAfterPut(c1, "theme", t2, middle);
      }
    }
  }

  /** Running the statements one after another is `Install` along the
      three levels. */
  lemma SequentialIsInstall(v: Js.Value, key: string, x: Js.Value)
    ensures Sequential(v, key, x) == Install(v, Levels, key, x)
  {
    Stage1(v, key, x);
    if Js.Get(v, "theme").Ok? {
      FromExtendIsInstall(EnsureLevel(v, ["theme"]).value, key, x);
    }
  }

  // ---------------------------------------------------------------------
  // What the update does to the nested config

  /** A chain of new objects down `path`, holding only `key: x` at the
      bottom: what the update builds where a level is missing. */
  function Fresh(path: seq<string>, key: string, x: Js.Value): (r: Js.Value)
    ensures r.Obj?
    decreases |path|
  {
    if path == [] then Js.Obj(map[key := x]) else Js.Obj(map[path[0] := Fresh(path[1..], key, x)])
  }

  /** The innermost level is not a truthy primitive (a non-empty string, a
      non-zero number, `true`), the one kind of level the update keeps and
      then cannot write into. */
  predicate Settable(v: Js.Value, path: seq<string>) {
    !(Read(v, path).Ok? && Js.Truthy(Read(v, path).value) && !Js.IsContainer(Read(v, path).value))
  }

  /** Starting from an empty object, the update builds the fresh chain. */
  lemma {:induction false} InstallFresh(path: seq<string>, key: string, x: Js.Value)
    ensures Install(Js.Obj(map[]), path, key, x) == Ok(Fresh(path, key, x))
    decreases |path|
  {
    if path != [] {
      InstallFresh(path[1..], key, x);
      assert Js.Put(Js.Obj(map[]), path[0], Js.Obj(map[])).value == Js.Obj(map[path[0] := Js.Obj(map[])]);
      assert map[path[0] := Js.Obj(map[])][path[0] := Fresh(path[1..], key, x)] == map[path[0] := Fresh(path[1..], key, x)];
    }
  }

  /** The fresh chain holds `x` under `path` and `key`. */
  lemma {:induction false} ReadFresh(path: seq<string>, key: string, x: Js.Value)
    ensures Read(Fresh(path, key, x), path + [key]) == Ok(x)
    decreases |path|
  {
    if path == [] {
      ReadCons(Fresh(path, key, x), key, []);
    } else {
      ReadFresh(path[1..], key, x);
      assert path + [key] == [path[0]] + (path[1..] + [key]);
      ReadCons(Fresh(path, key, x), path[0], path[1..] + [key]);
    }
  }

  /** Reading down to an object passes only through objects. */
  lemma {:induction false} ReadThroughContainer(v: Js.Value, path: seq<string>)
    requires Read(v, path).Ok? && Js.IsContainer(Read(v, path).value)
    ensures Js.IsContainer(v)
    decreases |path|
  {
    if path != [] {
      ReadCons(v, path[0], path[1..]);
      assert path == [path[0]] + path[1..];
      var child := Js.Get(v, path[0]).value;
      ReadThroughContainer(child, path[1..]);
    }
  }

  /** An update that succeeds leaves `x` under `path` and `key`, unless the
      innermost level it finds is a truthy primitive. */
  lemma {:induction false} InstallSetsKey(v: Js.Value, path: seq<string>, key: string, x: Js.Value)
    requires |path| > 0 && Install(v, path, key, x).Ok? && Settable(v, path)
    ensures Read(Install(v, path, key, x).value, path + [key]) == Ok(x)
    decreases |path|
  {
    var p, rest := path[0], path[1..];
    assert path == [p] + rest;
    assert path + [key] == [p] + (rest + [key]);
    InstallCons(v, p, rest, key, x);
    ReadCons(v, p, rest);
    var w := Install(v, path, key, x).value;
    var child := Js.Get(v, p).value;
    assert Js.IsContainer(v);
    if Js.Truthy(child) {
      var u := Install(child, rest, key, x).value;
      assert w == Js.Put(v, p, u).value;
      ReadCons(w, p, rest + [key]);
      if rest == [] {
        ReadCons(child, key, []);
        ReadCons(u, key, []);
      } else {
        InstallSetsKey(child, rest, key, x);
      }
    } else {
      var v1 := Js.Put(v, p, Js.Obj(map[])).value;
      InstallFresh(rest, key, x);
      ReadFresh(rest, key, x);
      ReadCons(w, p, rest + [key]);
    }
  }

  /** An update that finds a truthy primitive as its innermost level writes
      nothing: every level is stored back unchanged. */
  lemma {:induction false} InstallIgnoredOnPrimitive(v: Js.Value, path: seq<string>, key: string, x: Js.Value)
    requires Install(v, path, key, x).Ok? && !Settable(v, path)
    ensures Install(v, path, key, x) == Ok(v)
    decreases |path|
  {
    if path != [] {
      var p, rest := path[0], path[1..];
      assert path == [p] + rest;
      InstallCons(v, p, rest, key, x);
      ReadCons(v, p, rest);
      var child := Js.Get(v, p).value;
      if rest == [] {
        assert Read(child, []) == Ok(child);
      }
      InstallIgnoredOnPrimitive(child, rest, key, x);
      if Js.IsContainer(v) {
        Js.PutOwn(v, p);
      }
    }
  }

  /** Where the update finds an object at every level down to `path[..i]`,
      every other key of that level keeps its value. */
  lemma {:induction false} InstallKeepsOthers(v: Js.Value, path: seq<string>, key: string, x: Js.Value, i: nat, k: string)
    requires Install(v, path, key, x).Ok?
    requires i <= |path| && k != (path + [key])[i]
    requires Read(v, path[..i]).Ok? && Js.IsContainer(Read(v, path[..i]).value)
    ensures Read(Install(v, path, key, x).value, path[..i] + [k]) == Read(v, path[..i] + [k])
    decreases |path|
  {
    ReadThroughContainer(v, path[..i]);
    if i == 0 {
      assert path[..0] + [k] == [k];
      KeepsOthersAtTop(v, path, key, x, k);
    } else {
      var p, rest := path[0], path[1..];
      assert path == [p] + rest;
      assert path[..i] == [p] + rest[..i - 1];
      assert path[..i] + [k] == [p] + (rest[..i - 1] + [k]);
      ReadCons(v, p, rest[..i - 1]);
      ReadThroughContainer(Js.Own(v, p), rest[..i - 1]);
      InstallThroughTruthy(v, p, rest, key, x);
      InstallKeepsOthers(Js.Own(v, p), rest, key, x, i - 1, k);
      KeepsOthersBelow(v, p, rest, key, x, i - 1, k);
    }
  }

  /** `InstallKeepsOthers` on the outermost object. */
  lemma KeepsOthersAtTop(v: Js.Value, path: seq<string>, key: string, x: Js.Value, k: string)
    requires Install(v, path, key, x).Ok? && Js.IsContainer(v) && k != (path + [key])[0]
    ensures Read(Install(v, path, key, x).value, [k]) == Read(v, [k])
  {
    ReadCons(Install(v, path, key, x).value, k, []);
    ReadCons(v, k, []);
    if path != [] {
      assert path == [path[0]] + path[1..];
      InstallCons(v, path[0], path[1..], key, x);
    }
  }

  /** `InstallKeepsOthers` one level down, given it for the child. */
  lemma KeepsOthersBelow(v: Js.Value, p: string, rest: seq<string>, key: string, x: Js.Value, j: nat, k: string)
    requires j <= |rest| && Js.IsContainer(v) && Js.IsContainer(Js.Own(v, p))
    requires Install(v, [p] + rest, key, x).Ok?
    requires Install(Js.Own(v, p), rest, key, x).Ok? ==>
      Read(Install(Js.Own(v, p), rest, key, x).value, rest[..j] + [k]) == Read(Js.Own(v, p), rest[..j] + [k])
    ensures Read(Install(v, [p] + rest, key, x).value, [p] + (rest[..j] + [k])) == Read(v, [p] + (rest[..j] + [k]))
  {
    InstallThroughTruthy(v, p, rest, key, x);
    ReadCons(v, p, rest[..j] + [k]);
    ReadCons(Install(v, [p] + rest, key, x).value, p, rest[..j] + [k]);
  }

  /** Where the update finds object levels down to `path[..i - 1]` and a
      falsy value at `path[..i]`, it puts a fresh chain there. */
  lemma {:induction false} InstallCreatesMissing(v: Js.Value, path: seq<string>, key: string, x: Js.Value, i: nat)
    requires Install(v, path, key, x).Ok?
    requires 0 < i <= |path|
    requires Read(v, path[..i - 1]).Ok? && Js.IsContainer(Read(v, path[..i - 1]).value)
    requires Read(v, path[..i]).Ok? && !Js.Truthy(Read(v, path[..i]).value)
    ensures Read(Install(v, path, key, x).value, path[..i]) == Ok(Fresh(path[i..], key, x))
    decreases |path|
  {
    var p, rest := path[0], path[1..];
    assert path == [p] + rest;
    assert path[..i] == [p] + rest[..i - 1];
    ReadThroughContainer(v, path[..i - 1]);
    ReadCons(v, p, rest[..i - 1]);
    if i == 1 {
      assert rest[..0] == [] && path[1..] == rest;
      CreatesMissingAtTop(v, p, rest, key, x);
    } else {
      assert path[..i - 1] == [p] + rest[..i - 2];
      ReadCons(v, p, rest[..i - 2]);
      ReadThroughContainer(Js.Own(v, p), rest[..i - 2]);
      assert rest[..i - 1][..i - 2] == rest[..i - 2];
      InstallThroughTruthy(v, p, rest, key, x);
      InstallCreatesMissing(Js.Own(v, p), rest, key, x, i - 1);
      assert rest[i - 1..] == path[i..];
      CreatesMissingBelow(v, p, rest, key, x, i - 1, Fresh(path[i..], key, x));
    }
  }

  /** `InstallCreatesMissing` for a falsy level of the outermost object. */
  lemma CreatesMissingAtTop(v: Js.Value, p: string, rest: seq<string>, key: string, x: Js.Value)
    requires Js.IsContainer(v) && !Js.Truthy(Js.Own(v, p))
    requires Install(v, [p] + rest, key, x).Ok?
    ensures Read(Install(v, [p] + rest, key, x).value, [p]) == Ok(Fresh(rest, key, x))
  {
    InstallCons(v, p, rest, key, x);
    InstallFresh(rest, key, x);
    ReadCons(Install(v, [p] + rest, key, x).value, p, []);
  }

  /** `InstallCreatesMissing` one level down, given it for the child. */
  lemma CreatesMissingBelow(v: Js.Value, p: string, rest: seq<string>, key: string, x: Js.Value, j: nat, f: Js.Value)
    requires j <= |rest| && Js.IsContainer(v) && Js.IsContainer(Js.Own(v, p))
    requires Install(v, [p] + rest, key, x).Ok?
    requires Install(Js.Own(v, p), rest, key, x).Ok? ==>
      Read(Install(Js.Own(v, p), rest, key, x).value, rest[..j]) == Ok(f)
    ensures Read(Install(v, [p] + rest, key, x).value, [p] + rest[..j]) == Ok(f)
  {
    InstallThroughTruthy(v, p, rest, key, x);
    ReadCons(Install(v, [p] + rest, key, x).value, p, rest[..j]);
  }

  /** Running the update on its own result changes nothing more. */
  lemma {:induction false} InstallIdempotent(v: Js.Value, path: seq<string>, key: string, x: Js.Value)
    requires Install(v, path, key, x).Ok?
    ensures Install(Install(v, path, key, x).value, path, key, x) == Install(v, path, key, x)
    decreases |path|
  {
    if path == [] {
      Js.PutTwice(v, key, x, x);
    } else {
      var p, rest := path[0], path[1..];
      assert path == [p] + rest;
      InstallCons(v, p, rest, key, x);
      var level := Js.Get(Prepare(v, p), p).value;
      InstallIdempotent(level, rest, key, x);
      IdempotentStep(v, p, rest, key, x);
    }
  }

  /** The outer level of `InstallIdempotent`, given the inner one. */
  lemma IdempotentStep(v: Js.Value, p: string, rest: seq<string>, key: string, x: Js.Value)
    requires Install(v, [p] + rest, key, x).Ok?
    requires var level := Js.Get(Prepare(v, p), p).value;
      Install(level, rest, key, x).Ok? ==>
        Install(Install(level, rest, key, x).value, rest, key, x) == Install(level, rest, key, x)
    ensures Install(Install(v, [p] + rest, key, x).value, [p] + rest, key, x) == Install(v, [p] + rest, key, x)
  {
    InstallCons(v, p, rest, key, x);
    var v1 := Prepare(v, p);
    var level := Js.Get(v1, p).value;
    var u := Install(level, rest, key, x).value;
    var w := Js.Put(v1, p, u).value;
    assert Js.IsContainer(v);
    InstallCons(w, p, rest, key, x);
    assert Js.Get(w, p) == Ok(u) && Prepare(w, p) == w;
    Js.PutTwice(v1, p, u, u);
  }

  /** A truthy level of an object is kept, and the updated level is stored
      back into it. */
  lemma InstallThroughTruthy(v: Js.Value, p: string, rest: seq<string>, key: string, x: Js.Value)
    requires Js.IsContainer(v) && Js.Truthy(Js.Own(v, p))
    ensures Install(v, [p] + rest, key, x) == Lift(v, p, Install(Js.Own(v, p), rest, key, x))
  {
    InstallCons(v, p, rest, key, x);
  }

  /** The default config's `theme`, with `fontFamily` created under its
      empty `extend`. */
  lemma DefaultThemeUpdate(key: string, x: Js.Value)
    ensures Install(Js.Obj(map["extend" := Js.Obj(map[])]), ["extend", "fontFamily"], key, x)
      == Ok(Js.Obj(map["extend" := Js.Obj(map["fontFamily" := Js.Obj(map[key := x])])]))
  {
    var leaf := Js.Obj(map["fontFamily" := Js.Obj(map[key := x])]);
    InstallFresh(["fontFamily"], key, x);
    assert Fresh(["fontFamily"], key, x) == leaf;
    var theme := Js.Obj(map["extend" := Js.Obj(map[])]);
    assert ["extend", "fontFamily"] == ["extend"] + ["fontFamily"];
    InstallThroughTruthy(theme, "extend", ["fontFamily"], key, x);
    assert map["extend" := Js.Obj(map[])]["extend" := leaf] == map["extend" := leaf];
  }

  /** Without a config file the written object is the default with the
      family's entry as the only key of a new `theme.extend.fontFamily`. */
  lemma AbsentFile(family: string)
    ensures ConfigUpdate(family, Absent) == Ok(Some(Js.Obj(DefaultConfig.props[
      "theme" := Js.Obj(map["extend" := Js.Obj(map["fontFamily" := Js.Obj(map[FamilyKey(family) := FamilyEntry(family)])])])])))
  {
    var key, x := FamilyKey(family), FamilyEntry(family);
    DefaultThemeUpdate(key, x);
    var theme := Js.Obj(map["extend" := Js.Obj(map["fontFamily" := Js.Obj(map[key := x])])]);
    assert Levels == ["theme"] + ["extend", "fontFamily"];
    InstallThroughTruthy(DefaultConfig, "theme", ["extend", "fontFamily"], key, x);
  }

  /** A loaded config whose `theme.extend.fontFamily` is not a truthy
      primitive ends up with the family's entry under its key. */
  lemma UpdateSetsEntry(family: string, text: string, config: Js.Value)
    requires !Contains(text, family) && Settable(config, Levels)
    requires ConfigUpdate(family, Present(text, Ok(config))).Ok?
    ensures var r := ConfigUpdate(family, Present(text, Ok(config)));
      r.value.Some? && Read(r.value.value, Levels + [FamilyKey(family)]) == Ok(FamilyEntry(family))
  {
    InstallSetsKey(config, Levels, FamilyKey(family), FamilyEntry(family));
  }

  /** The key is the family lower-cased and nothing else: a `+` from the
      request stays as it is. */
  lemma FamilyKeyExample()
    ensures FamilyKey("Fira+Code") == "fira+code"
  {
    assert LowerChar('F') == 'f' && LowerChar('C') == 'c';
  }

  /** updateTailwindConfig: `Ok(None)` when it skips, `Ok(Some(text))`
      with the text it writes, and every failure carrying the prefix. */
  method UpdateTailwindConfig(family: string, file: ConfigFile, stringify: Js.Value -> string)
    returns (r: Result<Option<string>>)
    ensures r.Ok? <==> ConfigUpdate(family, file).Ok?
    ensures ConfigUpdate(family, file) == Ok(None) ==> r == Ok(None)
    ensures ConfigUpdate(family, file).Ok? && ConfigUpdate(family, file).value.Some? ==>
      r == Ok(Some(ExportPrefix + stringify(ConfigUpdate(family, file).value.value)))
    ensures ConfigUpdate(family, file).Err? ==> r == Err(ErrorPrefix + ConfigUpdate(family, file).msg)
  {
    var config: Js.Value;
    if file.Present? {
      if Contains(file.text, family) {
        return Ok(None);
      }
      if file.loaded.Err? {
        return Err(ErrorPrefix + file.loaded.msg);
      }
      config := file.loaded.value;
    } else {
      config := DefaultConfig;
    }
    var updated := AddFontFamily(config, FamilyKey(family), FamilyEntry(family));
    if updated.Err? {
      return Err(ErrorPrefix + updated.msg);
    }
    return Ok(Some(ExportPrefix + stringify(updated.value)));
  }
}
