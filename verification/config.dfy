/** The user configuration and its Lua-side setter (`src/config.rs`).

    A configuration script assigns fields of the global `manen`; each
    assignment goes through the setter, which checks the value's type and
    contents for that field and either updates that one field or raises an
    error. Whether a path exists, and whether a system Lua can be started,
    are questions about the machine: both are parameters here. */
module Config {
  import opened Results
  import opened Strings

  /** A Lua integer. */
  type i64 = x: int | -0x8000_0000_0000_0000 <= x < 0x8000_0000_0000_0000

  /** A Lua value, as far as the setter can tell values apart. A float
      carries the text Lua renders it as. */
  datatype LuaValue =
    | Nil
    | Boolean(b: bool)
    | LightUserData
    | Integer(i: i64)
    | Number(rendered: string)
    | Str(text: string)
    | Table
    | Function
    | Thread
    | UserData

  /** `Value::type_name`. */
  function TypeName(v: LuaValue): string {
    match v
    case Nil => "nil"
    case Boolean(_) => "boolean"
    case LightUserData => "lightuserdata"
    case Integer(_) => "integer"
    case Number(_) => "number"
    case Str(_) => "string"
    case Table => "table"
    case Function => "function"
    case Thread => "thread"
    case UserData => "userdata"
  }

  datatype Executor = System | Embedded

  /** The table formats a configuration can name. */
  datatype TableFormat = Address | Inspect | ComfyTable

  datatype Config = Config(
    executor: Executor,
    systemLua: Option<string>,
    tableFormat: TableFormat,
    historySize: nat,
    colorOutput: bool)

  /** `Config::default`, also what loading yields when there is no
      configuration file. */
  function Default(): Config {
    Config(Embedded, None, Inspect, 256, true)
  }

  /** The errors the setter raises. */
  datatype ConfigError =
    | InvalidType(typeName: string, field: string, expected: string)
    | InvalidExecutor
    | NotAPath(typeName: string)
    | NoSuchPath(path: string)
    | InvalidTableFormat
    | InvalidKey(key: string)

  /** The message the setter words for an error. A value that does not
      convert to a path is reported by the conversion itself, whose wording
      is not part of this model, so that error has none here. */
  function Message(e: ConfigError): (m: Option<string>)
    ensures m.None? <==> e.NotAPath?
  {
    match e
    case InvalidType(t, f, x) => Some("invalid type '" + t + "' for " + f + ", expected " + x)
    case InvalidExecutor => Some("expected valid executor format")
    case NotAPath(_) => None
    case NoSuchPath(p) => Some("path '" + p + "' does not exist")
    case InvalidTableFormat => Some("expected valid table format")
    case InvalidKey(k) => Some("invalid key '" + k + "'")
  }

  /* ---------------------------------------------------------------------- */
  /*  Conversions                                                           */
  /* ---------------------------------------------------------------------- */

  /** `Value::as_string_lossy`: strings only. */
  function AsString(v: LuaValue): Option<string> {
    if v.Str? then Some(v.text) else None
  }

  /** `Value::as_usize`: non-negative integers only, never floats. */
  function AsUsize(v: LuaValue): Option<nat> {
    if v.Integer? && v.i >= 0 then Some(v.i as nat) else None
  }

  /** `Value::as_boolean`: booleans only. */
  function AsBoolean(v: LuaValue): Option<bool> {
    if v.Boolean? then Some(v.b) else None
  }

  /** Lua's rendering of an integer. */
  function IntegerText(i: int): string {
    if i < 0 then "-" + Decimal(-i) else Decimal(i)
  }

  /** `PathBuf::from_lua`: a string is taken as is, a number as Lua renders
      it; any other value does not convert. */
  function AsPath(v: LuaValue): Option<string> {
    match v
    case Str(s) => Some(s)
    case Integer(i) => Some(IntegerText(i))
    case Number(text) => Some(text)
    case _ => None
  }

  /** The `field!` check: the converted value, or an error naming the value's
      type, the field and the expected type. */
  function Field<T>(converted: Option<T>, v: LuaValue, field: string, expected: string): (r: Result<T, ConfigError>)
    ensures r.Ok? <==> converted.Some?
    ensures r.Ok? ==> r.value == converted.value
    ensures r.Err? ==> r.error == InvalidType(TypeName(v), field, expected)
  {
    match converted
    case Some(x) => Ok(x)
    case None => Err(InvalidType(TypeName(v), field, expected))
  }

  /* ---------------------------------------------------------------------- */
  /*  The setter                                                            */
  /* ---------------------------------------------------------------------- */

  /** The keys the setter knows. */
  const Keys: set<string> := {"executor", "system_lua", "table_format", "history_size", "color_output"}

  /** `b` is `a` with at most the field named `key` changed. */
  predicate OnlyChanged(a: Config, b: Config, key: string) {
    && (key != "executor" ==> b.executor == a.executor)
    && (key != "system_lua" ==> b.systemLua == a.systemLua)
    && (key != "table_format" ==> b.tableFormat == a.tableFormat)
    && (key != "history_size" ==> b.historySize == a.historySize)
    && (key != "color_output" ==> b.colorOutput == a.colorOutput)
  }

  /** The `NewIndex` handler: `manen[key] = value`. `pathExists` answers whether
      a path exists. */
  function SetField(cfg: Config, key: string, value: LuaValue, pathExists: string -> bool): (r: Result<Config, ConfigError>)
    ensures r.Ok? ==> OnlyChanged(cfg, r.value, key)
    ensures key !in Keys ==> r == Err(InvalidKey(key))
    ensures r.Err? && r.error.InvalidType? ==> r.error.field == key && r.error.typeName == TypeName(value)
  {
    if key == "executor" then
      match Field(AsString(value), value, "executor", "string")
      case Err(e) => Err(e)
      case Ok(s) =>
        if s == "system" then Ok(cfg.(executor := System))
        else if s == "embedded" then Ok(cfg.(executor := Embedded))
        else Err(InvalidExecutor)
    else if key == "system_lua" then
      if value.Nil? then Ok(cfg.(systemLua := None))
      else
        match AsPath(value)
        case None => Err(NotAPath(TypeName(value)))
        case Some(path) =>
          if !pathExists(path) then Err(NoSuchPath(path))
          else Ok(cfg.(systemLua := Some(path)))
    else if key == "table_format" then
      match Field(AsString(value), value, "table_format", "string")
      case Err(e) => Err(e)
      case Ok(s) =>
        if s == "address" then Ok(cfg.(tableFormat := Address))
        else if s == "inspect" then Ok(cfg.(tableFormat := Inspect))
        else if s == "comfytable" then Ok(cfg.(tableFormat := ComfyTable))
        else Err(InvalidTableFormat)
    else if key == "history_size" then
      match Field(AsUsize(value), value, "history_size", "integer")
      case Err(e) => Err(e)
      case Ok(n) => Ok(cfg.(historySize := n))
    else if key == "color_output" then
      match Field(AsBoolean(value), value, "color_output", "bool")
      case Err(e) => Err(e)
      case Ok(b) => Ok(cfg.(colorOutput := b))
    else Err(InvalidKey(key))
  }

  /** A configuration script: its assignments to `manen`, in order; the first
      error stops it. */
  function RunScript(cfg: Config, script: seq<(string, LuaValue)>, pathExists: string -> bool): Result<Config, ConfigError>
    decreases |script|
  {
    if |script| == 0 then Ok(cfg)
    else
      match SetField(cfg, script[0].0, script[0].1, pathExists)
      case Err(e) => Err(e)
      case Ok(next) => RunScript(next, script[1..], pathExists)
  }

  /** Running a script in two parts: the second part starts from what the
      first left, and does not run at all once the first has failed. */
  lemma {:induction false} RunScriptAppend(cfg: Config, a: seq<(string, LuaValue)>, b: seq<(string, LuaValue)>, pathExists: string -> bool)
    ensures RunScript(cfg, a + b, pathExists) ==
      match RunScript(cfg, a, pathExists)
      case Ok(c) => RunScript(c, b, pathExists)
      case Err(e) => Err(e)
    decreases |a|
  {
    if |a| == 0 {
      assert a + b == b;
    } else {
      assert (a + b)[0] == a[0];
      assert (a + b)[1..] == a[1..] + b;
      match SetField(cfg, a[0].0, a[0].1, pathExists)
      case Err(e) =>
      case Ok(next) => RunScriptAppend(next, a[1..], b, pathExists);
    }
  }

  /* ---------------------------------------------------------------------- */
  /*  get_executor                                                          */
  /* ---------------------------------------------------------------------- */

  /** The executor a configuration runs code with. */
  datatype ExecutorChoice = EmbeddedLua | SystemLua(path: string)

  /** Starting a system Lua failed. The source's error carries its own
      details; this model's error records only the path it tried to start. */
  datatype SystemLuaError = SystemLuaError(path: string)

  /** `get_executor`: the embedded interpreter, unless the system one is
      chosen and a path is set; starting it may fail, which `starts`
      decides. */
  function GetExecutor(cfg: Config, starts: string -> bool): (r: Result<ExecutorChoice, SystemLuaError>)
    ensures r.Err? ==> cfg.executor == System && cfg.systemLua.Some? && r.error.path == cfg.systemLua.value
    ensures r.Ok? && r.value.SystemLua? ==> cfg.systemLua == Some(r.value.path)
  {
    match cfg.executor
    case Embedded => Ok(EmbeddedLua)
    case System =>
      match cfg.systemLua
      case Some(path) => if starts(path) then Ok(SystemLua(path)) else Err(SystemLuaError(path))
      case None => Ok(EmbeddedLua)
  }

  /* ---------------------------------------------------------------------- */
  /*  Properties                                                            */
  /* ---------------------------------------------------------------------- */

  /** `executor` takes exactly the strings `system` and `embedded`; any other
      string is not a valid executor, and any other type is a type error. */
  lemma ExecutorField(cfg: Config, value: LuaValue, pathExists: string -> bool)
    ensures var r := SetField(cfg, "executor", value, pathExists);
      && (r.Ok? <==> value == Str("system") || value == Str("embedded"))
      && (value == Str("system") ==> r == Ok(cfg.(executor := System)))
      && (value == Str("embedded") ==> r == Ok(cfg.(executor := Embedded)))
      && (!value.Str? ==> r == Err(InvalidType(TypeName(value), "executor", "string")))
      && (value.Str? && value.text != "system" && value.text != "embedded" ==> r == Err(InvalidExecutor))
  {
  }

  /** `table_format` takes exactly `address`, `inspect` and `comfytable`. */
  lemma TableFormatField(cfg: Config, value: LuaValue, pathExists: string -> bool)
    ensures var r := SetField(cfg, "table_format", value, pathExists);
      && (r.Ok? <==> value in {Str("address"), Str("inspect"), Str("comfytable")})
      && (r.Ok? ==> r.value.tableFormat == (if value.text == "address" then Address else if value.text == "inspect" then Inspect else ComfyTable))
      && (!value.Str? ==> r == Err(InvalidType(TypeName(value), "table_format", "string")))
      && (value.Str? && !r.Ok? ==> r == Err(InvalidTableFormat))
  {
  }

  /** `system_lua`: nil clears the path; a value that converts to a path is
      kept exactly when that path exists. */
  lemma SystemLuaField(cfg: Config, value: LuaValue, pathExists: string -> bool)
    ensures var r := SetField(cfg, "system_lua", value, pathExists);
      && (value.Nil? ==> r == Ok(cfg.(systemLua := None)))
      && (!value.Nil? && AsPath(value).Some? ==>
            (r.Ok? <==> pathExists(AsPath(value).value))
            && (r.Ok? ==> r.value.systemLua == AsPath(value))
            && (r.Err? ==> r.error == NoSuchPath(AsPath(value).value)))
      && (!value.Nil? && AsPath(value).None? ==> r == Err(NotAPath(TypeName(value))))
  {
  }

  /** `history_size` takes a non-negative integer, and nothing else: not a
      float, not a numeric string. */
  lemma HistorySizeField(cfg: Config, value: LuaValue, pathExists: string -> bool)
    ensures var r := SetField(cfg, "history_size", value, pathExists);
      && (r.Ok? <==> value.Integer? && value.i >= 0)
      && (r.Ok? ==> r.value.historySize == value.i)
      && (r.Err? ==> r.error == InvalidType(TypeName(value), "history_size", "integer"))
  {
  }

  /** What the setter prints for a value of the wrong type: the `field!`
      message naming the value's type, the key and the expected type. */
  lemma TypeErrorMessages(cfg: Config, key: string, value: LuaValue, pathExists: string -> bool)
    ensures var r := SetField(cfg, key, value, pathExists);
      key == "history_size" && AsUsize(value).None? ==>
        r.Err? && Message(r.error) == Some("invalid type '" + TypeName(value) + "' for history_size, expected integer")
    ensures var r := SetField(cfg, key, value, pathExists);
      key == "color_output" && !value.Boolean? ==>
        r.Err? && Message(r.error) == Some("invalid type '" + TypeName(value) + "' for color_output, expected bool")
    ensures var r := SetField(cfg, key, value, pathExists);
      (key == "executor" || key == "table_format") && !value.Str? ==>
        r.Err? && Message(r.error) == Some("invalid type '" + TypeName(value) + "' for " + key + ", expected string")
  {
    var t := TypeName(value);
    if key == "history_size" {
      TypeErrorWording(t, "history_size", "integer");
      HistorySizeWording();
    } else if key == "color_output" {
      TypeErrorWording(t, "color_output", "bool");
      ColorOutputWording();
    } else if key == "executor" || key == "table_format" {
      TypeErrorWording(t, key, "string");
      StringWording();
    }
  }

  /** The tails of the type errors, joined. */
  lemma HistorySizeWording()
    ensures "' for " + "history_size" + ", expected " + "integer" == "' for history_size, expected integer"
  {
  }

  lemma ColorOutputWording()
    ensures "' for " + "color_output" + ", expected " + "bool" == "' for color_output, expected bool"
  {
  }

  lemma StringWording()
    ensures ", expected " + "string" == ", expected string"
  {
  }

  /** What the setter prints for the other failures: a string that names
      no executor or table format, a path that does not exist, an unknown
      key. Only a value that does not convert to a path is reported by the
      conversion rather than by the setter. */
  lemma OtherErrorMessages(cfg: Config, key: string, value: LuaValue, pathExists: string -> bool)
    ensures var r := SetField(cfg, key, value, pathExists);
      key == "executor" && value.Str? && value.text != "system" && value.text != "embedded" ==>
        r.Err? && Message(r.error) == Some("expected valid executor format")
    ensures var r := SetField(cfg, key, value, pathExists);
      key == "table_format" && value.Str? && value.text !in {"address", "inspect", "comfytable"} ==>
        r.Err? && Message(r.error) == Some("expected valid table format")
    ensures var r := SetField(cfg, key, value, pathExists);
      key == "system_lua" && !value.Nil? && AsPath(value).Some? && !pathExists(AsPath(value).value) ==>
        r.Err? && Message(r.error) == Some("path '" + AsPath(value).value + "' does not exist")
    ensures var r := SetField(cfg, key, value, pathExists);
      key !in Keys ==> r.Err? && Message(r.error) == Some("invalid key '" + key + "'")
    ensures var r := SetField(cfg, key, value, pathExists);
      r.Err? && Message(r.error).None? <==> key == "system_lua" && !value.Nil? && AsPath(value).None?
  {
  }

  /** The type error's wording, with everything after the type name in one
      piece. */
  lemma TypeErrorWording(t: string, f: string, x: string)
    ensures Message(InvalidType(t, f, x)) == Some("invalid type '" + t + ("' for " + f + ", expected " + x))
    ensures Message(InvalidType(t, f, x)) == Some("invalid type '" + t + "' for " + f + (", expected " + x))
  {
    Regroup("invalid type '" + t, "' for " + f + ", expected ", x);
    Regroup("invalid type '" + t, "' for " + f, ", expected ");
    Regroup("invalid type '" + t, "' for ", f);
    Regroup("invalid type '" + t + "' for " + f, ", expected ", x);
  }

  /** `color_output` takes a boolean, and nothing else. */
  lemma ColorOutputField(cfg: Config, value: LuaValue, pathExists: string -> bool)
    ensures var r := SetField(cfg, "color_output", value, pathExists);
      && (r.Ok? <==> value.Boolean?)
      && (r.Ok? ==> r.value.colorOutput == value.b)
      && (r.Err? ==> r.error == InvalidType(TypeName(value), "color_output", "bool"))
  {
  }

  /** `a` with the field named `key` taken from `src`. */
  function CopyField(a: Config, src: Config, key: string): Config {
    if key == "executor" then a.(executor := src.executor)
    else if key == "system_lua" then a.(systemLua := src.systemLua)
    else if key == "table_format" then a.(tableFormat := src.tableFormat)
    else if key == "history_size" then a.(historySize := src.historySize)
    else if key == "color_output" then a.(colorOutput := src.colorOutput)
    else a
  }

  /** Whether an assignment is accepted, and what it stores, depends only on
      the key and the value, never on the rest of the configuration. */
  lemma SetFieldUniform(cfg: Config, other: Config, key: string, value: LuaValue, pathExists: string -> bool)
    ensures var r, s := SetField(cfg, key, value, pathExists), SetField(other, key, value, pathExists);
      && r.Ok? == s.Ok?
      && (r.Ok? ==> r.value == CopyField(cfg, s.value, key))
      && (r.Err? ==> r.error == s.error)
  {
    if key == "executor" {
    } else if key == "system_lua" {
    } else if key == "table_format" {
    } else if key == "history_size" {
    } else if key == "color_output" {
    }
  }

  /** Assignments to different fields do not interfere: they can be made in
      either order. */
  lemma SettersCommute(cfg: Config, k1: string, v1: LuaValue, k2: string, v2: LuaValue, pathExists: string -> bool)
    requires k1 != k2
    requires SetField(cfg, k1, v1, pathExists).Ok? && SetField(cfg, k2, v2, pathExists).Ok?
    ensures var a := SetField(cfg, k1, v1, pathExists).value;
      var b := SetField(cfg, k2, v2, pathExists).value;
      SetField(a, k2, v2, pathExists).Ok? && SetField(b, k1, v1, pathExists).Ok?
      && SetField(a, k2, v2, pathExists).value == SetField(b, k1, v1, pathExists).value
  {
    var a := SetField(cfg, k1, v1, pathExists).value;
    var b := SetField(cfg, k2, v2, pathExists).value;
    SetFieldUniform(a, cfg, k2, v2, pathExists);
    SetFieldUniform(b, cfg, k1, v1, pathExists);
    SetFieldUniform(cfg, cfg, k1, v1, pathExists);
    SetFieldUniform(cfg, cfg, k2, v2, pathExists);
  }

  /** A successful assignment, repeated, changes nothing more. */
  lemma SetFieldIdempotent(cfg: Config, key: string, value: LuaValue, pathExists: string -> bool)
    requires SetField(cfg, key, value, pathExists).Ok?
    ensures var once := SetField(cfg, key, value, pathExists).value;
      SetField(once, key, value, pathExists) == Ok(once)
  {
  }

  /** The script that assigns each field its default value. */
  function DefaultScript(): seq<(string, LuaValue)> {
    [("executor", Str("embedded")), ("system_lua", Nil), ("table_format", Str("inspect")),
     ("history_size", Integer(256)), ("color_output", Boolean(true))]
  }

  /** Assigning the default values restores the default from any
      configuration: each default is a value the setter accepts. */
  lemma DefaultReachable(cfg: Config, pathExists: string -> bool)
    ensures RunScript(cfg, DefaultScript(), pathExists) == Ok(Default())
  {
    var s := DefaultScript();
    var c1 := cfg.(executor := Embedded);
    var c2 := c1.(systemLua := None);
    var c3 := c2.(tableFormat := Inspect);
    var c4 := c3.(historySize := 256);
    var c5 := c4.(colorOutput := true);
    assert SetField(c4, s[4].0, s[4].1, pathExists) == Ok(c5);
    assert RunScript(c4, s[4..], pathExists) == Ok(c5) by {
      assert s[4..][1..] == [];
    }
    assert RunScript(c3, s[3..], pathExists) == Ok(c5) by {
      assert s[3..][1..] == s[4..];
    }
    assert RunScript(c2, s[2..], pathExists) == Ok(c5) by {
      assert s[2..][1..] == s[3..];
    }
    assert RunScript(c1, s[1..], pathExists) == Ok(c5) by {
      assert s[1..][1..] == s[2..];
    }
  }

  /** The default configuration runs code with the embedded interpreter. */
  lemma DefaultExecutor(starts: string -> bool)
    ensures GetExecutor(Default(), starts) == Ok(EmbeddedLua)
    ensures Default().historySize == 256 && Default().colorOutput && Default().tableFormat == Inspect
  {
  }

  /** The executor rule in full: the system interpreter is used exactly when
      it is chosen, a path is set, and it starts; it is never used without a
      path. */
  lemma ExecutorSelection(cfg: Config, starts: string -> bool)
    ensures var r := GetExecutor(cfg, starts);
      && (r == Ok(EmbeddedLua) <==> cfg.executor == Embedded || cfg.systemLua.None?)
      && (r.Ok? && r.value.SystemLua? <==> cfg.executor == System && cfg.systemLua.Some? && starts(cfg.systemLua.value))
  {
  }
}
