/** Reading the bot's settings from its environment: the two small text
    parsers and the defaulting and required-key rules of get_settings. The
    environment is passed in as a map from variable name to value. */
module Config {
  import opened Outcomes
  import opened Text

  // ---------- _parse_bool ----------

  /** The texts _parse_bool reads as true. */
  predicate TrueWord(w: string) {
    w == "1" || w == "true" || w == "yes" || w == "y" || w == "on"
  }

  /** _parse_bool: the default only when there is no text at all; otherwise
      whether the trimmed, lower-cased text is a true word. */
  function ParseBool(v: Option<string>, default: bool): bool {
    match v
    case None => default
    case Some(s) => TrueWord(Lower(Strip(s)))
  }

  /** Lower-casing keeps white space white space and everything else not. */
  lemma LowerCharSpace(c: char)
    ensures IsSpace(LowerChar(c)) <==> IsSpace(c)
  {
  }

  lemma {:induction false} TrimStartLower(s: string)
    ensures TrimStart(Lower(s)) == Lower(TrimStart(s))
    decreases |s|
  {
    if s != [] {
      LowerCharSpace(s[0]);
      assert Lower(s)[1..] == Lower(s[1..]);
      if IsSpace(s[0]) {
        TrimStartLower(s[1..]);
      }
    }
  }

  lemma {:induction false} TrimEndLower(s: string)
    ensures TrimEnd(Lower(s)) == Lower(TrimEnd(s))
    decreases |s|
  {
    if s != [] {
      LowerCharSpace(s[|s| - 1]);
      assert Lower(s)[..|s| - 1] == Lower(s[..|s| - 1]);
      if IsSpace(s[|s| - 1]) {
        TrimEndLower(s[..|s| - 1]);
      }
    }
  }

  /** Trimming and lower-casing commute. */
  lemma StripLower(s: string)
    ensures Strip(Lower(s)) == Lower(Strip(s))
  {
    TrimStartLower(s);
    TrimEndLower(TrimStart(s));
  }

  /** _parse_bool ignores letter case ... */
  lemma ParseBoolIgnoresCase(s: string, default: bool)
    ensures ParseBool(Some(Lower(s)), default) == ParseBool(Some(s), default)
  {
    StripLower(s);
    LowerIdempotent(Strip(s));
  }

  /** ... and surrounding white space ... */
  lemma ParseBoolIgnoresPadding(s: string, default: bool)
    ensures ParseBool(Some(Strip(s)), default) == ParseBool(Some(s), default)
  {
    StripIdempotent(s);
  }

  /** ... and the default decides only when no text is given: any text that
      is not a true word, the empty text included, reads as false. */
  lemma ParseBoolDefaultOnlyForNone(s: string, d1: bool, d2: bool)
    ensures ParseBool(Some(s), d1) == ParseBool(Some(s), d2)
    ensures ParseBool(Some(s), d1) <==> TrueWord(Lower(Strip(s)))
    ensures ParseBool(None, d1) == d1
  {
  }

  // ---------- _parse_int_set ----------

  /** The loop of _parse_int_set over the comma-separated parts: blank parts
      are skipped, every other part is read with int() (which ignores the
      surrounding white space the loop trims). */
  function IntSetOf(parts: seq<string>): (r: Result<set<int>>)
    ensures r.Err? ==> r.error == ValueError
    decreases |parts|
  {
    if parts == [] then Ok({})
    else
      match IntSetOf(parts[..|parts| - 1])
      case Err(e) => Err(e)
      case Ok(acc) =>
        var part := parts[|parts| - 1];
        if Strip(part) == "" then Ok(acc)
        else
          match ParseInt(part)
          case None => Err(ValueError)
          case Some(n) => Ok(acc + {n})
  }

  /** _parse_int_set: no text or the empty text is the empty set. */
  function IntSetSpec(csv: Option<string>): Result<set<int>> {
    if csv.None? || csv.value == "" then Ok({}) else IntSetOf(Split(csv.value, ','))
  }

  /** A part that counts: not blank after trimming. */
  predicate Filled(part: string) {
    Strip(part) != ""
  }

  /** The parse succeeds exactly when every filled part is an integer ... */
  lemma {:induction false} IntSetOfOk(parts: seq<string>)
    ensures IntSetOf(parts).Ok? <==>
              forall i :: 0 <= i < |parts| && Filled(parts[i]) ==> ParseInt(parts[i]).Some?
    decreases |parts|
  {
    if parts != [] {
      var init := parts[..|parts| - 1];
      var last := |parts| - 1;
      IntSetOfOk(init);
      if IntSetOf(init).Err? {
        var i :| 0 <= i < |init| && Filled(init[i]) && ParseInt(init[i]).None?;
        assert init[i] == parts[i];
      } else if Filled(parts[last]) && ParseInt(parts[last]).None? {
      } else {
        forall i | 0 <= i < |parts| && Filled(parts[i])
          ensures ParseInt(parts[i]).Some?
        {
          if i < last {
            assert init[i] == parts[i];
          }
        }
      }
    }
  }

  /** One more part adds its value, when it is filled. */
  lemma IntSetOfStep(parts: seq<string>)
    requires parts != [] && IntSetOf(parts).Ok?
    ensures var last := parts[|parts| - 1];
            && IntSetOf(parts[..|parts| - 1]).Ok?
            && (Filled(last) ==> ParseInt(last).Some?)
            && IntSetOf(parts).value ==
                 IntSetOf(parts[..|parts| - 1]).value + (if Filled(last) then {ParseInt(last).value} else {})
  {
  }

  /** ... every value it holds comes from a filled part ... */
  lemma {:induction false} IntSetOfOnly(parts: seq<string>, n: int)
    requires IntSetOf(parts).Ok? && n in IntSetOf(parts).value
    ensures exists i :: 0 <= i < |parts| && Filled(parts[i]) && ParseInt(parts[i]) == Some(n)
    decreases |parts|
  {
    var init := parts[..|parts| - 1];
    var last := |parts| - 1;
    IntSetOfStep(parts);
    if n in IntSetOf(init).value {
      IntSetOfOnly(init, n);
      var i :| 0 <= i < |init| && Filled(init[i]) && ParseInt(init[i]) == Some(n);
      assert init[i] == parts[i];
    } else {
      assert Filled(parts[last]) && ParseInt(parts[last]) == Some(n);
    }
  }

  /** ... and the value of every filled part is in it. */
  lemma {:induction false} IntSetOfAll(parts: seq<string>, i: int)
    requires IntSetOf(parts).Ok? && 0 <= i < |parts| && Filled(parts[i])
    ensures ParseInt(parts[i]).Some? && ParseInt(parts[i]).value in IntSetOf(parts).value
    decreases |parts|
  {
    var init := parts[..|parts| - 1];
    IntSetOfStep(parts);
    if i < |parts| - 1 {
      IntSetOfAll(init, i);
      assert init[i] == parts[i];
    }
  }

  /** So the set holds exactly the values of the filled parts. */
  lemma {:induction false} IntSetOfMembers(parts: seq<string>, n: int)
    requires IntSetOf(parts).Ok?
    ensures n in IntSetOf(parts).value <==>
              exists i :: 0 <= i < |parts| && Filled(parts[i]) && ParseInt(parts[i]) == Some(n)
  {
    if n in IntSetOf(parts).value {
      IntSetOfOnly(parts, n);
    }
    if exists i :: 0 <= i < |parts| && Filled(parts[i]) && ParseInt(parts[i]) == Some(n) {
      var i :| 0 <= i < |parts| && Filled(parts[i]) && ParseInt(parts[i]) == Some(n);
      IntSetOfAll(parts, i);
    }
  }

  /** One more filled part holding an integer adds that integer. */
  lemma IntSetOfAppend(parts: seq<string>, part: string, acc: set<int>, n: int)
    requires IntSetOf(parts) == Ok(acc) && Filled(part) && ParseInt(part) == Some(n)
    ensures IntSetOf(parts + [part]) == Ok(acc + {n})
  {
    assert (parts + [part])[..|parts|] == parts;
  }

  lemma IntSetOfSkip(parts: seq<string>, part: string)
    requires !Filled(part)
    ensures IntSetOf(parts + [part]) == IntSetOf(parts)
  {
    assert (parts + [part])[..|parts|] == parts;
  }

  /** Once a prefix of the parts fails, the whole parse fails. */
  lemma {:induction false} IntSetOfPrefixFails(parts: seq<string>, i: nat)
    requires i <= |parts| && IntSetOf(parts[..i]).Err?
    ensures IntSetOf(parts).Err?
    decreases |parts| - i
  {
    if i < |parts| {
      assert parts[..i + 1][..i] == parts[..i];
      IntSetOfPrefixFails(parts, i + 1);
    } else {
      assert parts[..i] == parts;
    }
  }

  /** _parse_int_set. */
  method ParseIntSet(csv: Option<string>) returns (r: Result<set<int>>)
    ensures r == IntSetSpec(csv)
  {
    if csv.None? || csv.value == "" {
      return Ok({});
    }
    var parts := Split(csv.value, ',');
    var out: set<int> := {};
    var i := 0;
    while i < |parts|
      invariant 0 <= i <= |parts|
      invariant IntSetOf(parts[..i]) == Ok(out)
    {
      assert parts[..i + 1] == parts[..i] + [parts[i]];
      var p := Strip(parts[i]);
      if p != "" {
        // int() trims its argument itself, so the part is read as it stands.
        var n := ParseInt(parts[i]);
        if n.None? {
          assert parts[..i + 1][..i] == parts[..i];
          IntSetOfPrefixFails(parts, i + 1);
          return Err(ValueError);
        }
        IntSetOfAppend(parts[..i], parts[i], out, n.value);
        out := out + {n.value};
      } else {
        IntSetOfSkip(parts[..i], parts[i]);
      }
      i := i + 1;
    }
    assert parts[..i] == parts;
    return Ok(out);
  }

  // ---------- get_settings ----------

  datatype Settings = Settings(
    telegramToken: string,
    excelPath: string,
    excelSheet: string,
    allowedChatIds: set<int>,
    disableAuth: bool,
    openaiApiKey: string,
    openaiModel: string,
    envPath: string,
    adminChatId: Option<int>)

  /** os.getenv(key, default). */
  function GetEnv(env: map<string, string>, key: string, default: string): (v: string)
    ensures key !in env ==> v == default
    ensures key in env ==> v == env[key]
  {
    if key in env then env[key] else default
  }

  /** get_settings: both secrets are required (checked in this order, the
      chat id list being read between them), every other key has a default;
      a malformed chat id list or admin id raises ValueError. */
  function GetSettings(env: map<string, string>): Result<Settings> {
    var token := Strip(GetEnv(env, "TELEGRAM_BOT_TOKEN", ""));
    if token == "" then Err(ConfigError("TELEGRAM_BOT_TOKEN"))
    else
      var excelPath := Strip(GetEnv(env, "EXCEL_PATH", "./data/catalogo.xlsx"));
      var excelSheet := Strip(GetEnv(env, "EXCEL_SHEET", "Catalogo"));
      match IntSetSpec(Some(Strip(GetEnv(env, "ALLOWED_CHAT_IDS", ""))))
      case Err(e) => Err(e)
      case Ok(allowed) =>
        var disableAuth := ParseBool(Some(GetEnv(env, "DISABLE_AUTH", "false")), false);
        var apiKey := Strip(GetEnv(env, "OPENAI_API_KEY", ""));
        if apiKey == "" then Err(ConfigError("OPENAI_API_KEY"))
        else
          var model := Strip(GetEnv(env, "OPENAI_MODEL", "gpt-5.2-mini"));
          var adminRaw := Strip(GetEnv(env, "ADMIN_CHAT_IDS", ""));
          var admin := if adminRaw == "" then Ok(None)
                       else match ParseInt(adminRaw)
                            case None => Err(ValueError)
                            case Some(n) => Ok(Some(n));
          match admin
          case Err(e) => Err(e)
          case Ok(a) =>
            Ok(Settings(token, excelPath, excelSheet, allowed, disableAuth, apiKey, model,
                        GetEnv(env, "ENV_PATH", ".env"), a))
  }

  /** The bot token is required: missing or blank, get_settings fails
      naming it, whatever else the environment holds. */
  lemma SettingsNeedToken(env: map<string, string>)
    requires "TELEGRAM_BOT_TOKEN" !in env || Strip(env["TELEGRAM_BOT_TOKEN"]) == ""
    ensures GetSettings(env) == Err(ConfigError("TELEGRAM_BOT_TOKEN"))
  {
  }

  /** With a token and a chat id list that parses, the API key is required
      next. */
  lemma SettingsNeedApiKey(env: map<string, string>)
    requires "TELEGRAM_BOT_TOKEN" in env && Strip(env["TELEGRAM_BOT_TOKEN"]) != ""
    requires IntSetSpec(Some(Strip(GetEnv(env, "ALLOWED_CHAT_IDS", "")))).Ok?
    requires "OPENAI_API_KEY" !in env || Strip(env["OPENAI_API_KEY"]) == ""
    ensures GetSettings(env) == Err(ConfigError("OPENAI_API_KEY"))
  {
    StripFixed("");
  }

  /** Settings that load carry both secrets, trimmed and non-empty. */
  lemma SettingsSecrets(env: map<string, string>)
    requires GetSettings(env).Ok?
    ensures var st := GetSettings(env).value;
            && st.telegramToken == Strip(env["TELEGRAM_BOT_TOKEN"]) != ""
            && st.openaiApiKey == Strip(env["OPENAI_API_KEY"]) != ""
  {
  }

  lemma ExcelPathDefault(t: string)
    requires t == "./data/catalogo.xlsx"
    ensures Strip(t) == t
  {
    StripFixed(t);
  }

  lemma ExcelSheetDefault(t: string)
    requires t == "Catalogo"
    ensures Strip(t) == t
  {
    StripFixed(t);
  }

  lemma ModelDefault(t: string)
    requires t == "gpt-5.2-mini"
    ensures Strip(t) == t
  {
    StripFixed(t);
  }

  lemma FalseDefault(t: string)
    requires t == "false"
    ensures !ParseBool(Some(t), false)
  {
    StripFixed(t);
  }

  /** With only the two secrets set, every other setting takes its default:
      the catalogue path and sheet, no allowed chats, authorisation on, the
      model name, the .env path and no admin chat. */
  lemma SettingsDefaults(env: map<string, string>)
    requires "TELEGRAM_BOT_TOKEN" in env && Strip(env["TELEGRAM_BOT_TOKEN"]) != ""
    requires "OPENAI_API_KEY" in env && Strip(env["OPENAI_API_KEY"]) != ""
    requires "EXCEL_PATH" !in env && "EXCEL_SHEET" !in env && "ALLOWED_CHAT_IDS" !in env
    requires "DISABLE_AUTH" !in env && "OPENAI_MODEL" !in env
    requires "ADMIN_CHAT_IDS" !in env && "ENV_PATH" !in env
    ensures GetSettings(env) == Ok(Settings(
              Strip(env["TELEGRAM_BOT_TOKEN"]), "./data/catalogo.xlsx", "Catalogo", {}, false,
              Strip(env["OPENAI_API_KEY"]), "gpt-5.2-mini", ".env", None))
  {
    ExcelPathDefault("./data/catalogo.xlsx");
    ExcelSheetDefault("Catalogo");
    ModelDefault("gpt-5.2-mini");
    StripFixed("");
    FalseDefault("false");
    assert IntSetSpec(Some(Strip(GetEnv(env, "ALLOWED_CHAT_IDS", "")))) == Ok({});
  }

  /** A blank admin id means no admin chat; otherwise it is the int() of the
      trimmed text. */
  lemma SettingsAdmin(env: map<string, string>)
    requires GetSettings(env).Ok?
    ensures var raw := Strip(GetEnv(env, "ADMIN_CHAT_IDS", ""));
            var st := GetSettings(env).value;
            && (raw == "" <==> st.adminChatId.None?)
            && (raw != "" ==> Some(st.adminChatId.value) == ParseInt(raw))
  {
  }
}
