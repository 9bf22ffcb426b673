/** The newer configuration manager. Its getters repair what they read (a port outside
    1..65535 becomes 3306, an interval below 60 seconds becomes 60, a negative cooldown
    becomes 0, and host, database name and user are trimmed), loading validates the
    result and fills in default texts for some missing messages, and `getMessage` does
    not put the prefix in front of the prefix itself. */
module CreeperConfig {
  import opened Wrappers
  import opened JavaText
  import opened ConfigModel

  const HOST_PATH := "database.host"
  const PORT_PATH := "database.port"
  const NAME_PATH := "database.database"
  const USER_PATH := "database.username"
  const PASSWORD_PATH := "database.password"
  const INTERVAL_PATH := "expiration-check-interval"
  const COOLDOWN_PATH := "messages.gui-message-cooldown"

  const DEFAULT_PORT: int := 3306
  const MIN_PORT: int := 1
  const MAX_PORT: int := 65535
  /** Seconds between expiry sweeps, by default and at least. */
  const DEFAULT_INTERVAL: int := 600
  const MIN_INTERVAL: int := 60
  /** The concurrent-claim notice cooldown, 0.2 seconds, in thousandths. */
  const DEFAULT_COOLDOWN_MILLI: int := 200

  /** The message keys validation looks for, in the order it looks. */
  const REQUIRED_MESSAGES: seq<string> := [
    "prefix", "no-permission", "gift-sent", "player-not-found",
    "no-item-in-hand", "invalid-command-usage", "invalid-number",
    "inventory-full", "gift-claimed", "all-gifts-claimed",
    "no-gifts-to-claim", "join-notification", "gift-expired",
    "concurrent-claim-error", "gui-title", "loading-item-name",
    "claim-all-item-name", "expire-never"]

  /** The texts `setDefaultMessage` knows; every other missing key stays missing. */
  function DefaultMessage(key: string): Option<string> {
    if key == "prefix" then Some("&f[&dGiftBox&f] ")
    else if key == "no-permission" then Some("&cYou don't have permission to use this command.")
    else if key == "loading-error" then Some("&cFailed to load gifts. Please try again.")
    else None
  }

  /** The configuration after the required keys up to `keys` have been checked: each one
      that is missing and has a default text gets it. */
  function WithDefaults(config: Config, keys: seq<string>): Config
  {
    if keys == [] then config
    else
      var before := WithDefaults(config, keys[..|keys| - 1]);
      var key := keys[|keys| - 1];
      if MESSAGES + key !in before && DefaultMessage(key).Some? then
        before[MESSAGES + key := Text(DefaultMessage(key).value)]
      else before
  }

  /** Filling in defaults never overwrites or removes a value; it adds exactly the message
      paths of checked keys that were missing and have a default text. */
  lemma {:induction false} WithDefaultsOnlyAdds(config: Config, keys: seq<string>)
    ensures forall p | p in config :: p in WithDefaults(config, keys) && WithDefaults(config, keys)[p] == config[p]
    ensures forall p | p in WithDefaults(config, keys) && p !in config ::
      exists k | k in keys ::
        && p == MESSAGES + k && DefaultMessage(k).Some?
        && WithDefaults(config, keys)[p] == Text(DefaultMessage(k).value)
    ensures forall k | k in keys && DefaultMessage(k).Some? :: MESSAGES + k in WithDefaults(config, keys)
  {
    if keys != [] {
      var init := keys[..|keys| - 1];
      WithDefaultsOnlyAdds(config, init);
      assert forall k | k in keys :: k in init || k == keys[|keys| - 1];
      forall p | p in WithDefaults(config, keys) && p !in config
        ensures exists k | k in keys ::
          && p == MESSAGES + k && DefaultMessage(k).Some?
          && WithDefaults(config, keys)[p] == Text(DefaultMessage(k).value)
      {
        var before := WithDefaults(config, init);
        if p in before {
          var k :| k in init && p == MESSAGES + k && DefaultMessage(k).Some? && before[p] == Text(DefaultMessage(k).value);
          assert k in keys;
        } else {
          assert keys[|keys| - 1] in keys;
        }
      }
    }
  }

  /** After validation a configuration always has a prefix and a no-permission text. */
  lemma ValidationFillsPrefix(config: Config)
    ensures MESSAGES + "prefix" in WithDefaults(config, REQUIRED_MESSAGES)
    ensures MESSAGES + "no-permission" in WithDefaults(config, REQUIRED_MESSAGES)
  {
    WithDefaultsOnlyAdds(config, REQUIRED_MESSAGES);
    assert "prefix" == REQUIRED_MESSAGES[0];
    assert "no-permission" == REQUIRED_MESSAGES[1];
  }

  /** The loading-error default is never applied: that key is not among the required ones. */
  lemma LoadingErrorDefaultIsDead(config: Config)
    ensures MESSAGES + "loading-error" in WithDefaults(config, REQUIRED_MESSAGES) <==> MESSAGES + "loading-error" in config
  {
    UncheckedKeyUntouched(config, REQUIRED_MESSAGES, "loading-error");
  }

  /** A key validation does not check is neither added nor removed. */
  lemma {:induction false} UncheckedKeyUntouched(config: Config, keys: seq<string>, key: string)
    requires key !in keys
    ensures MESSAGES + key in WithDefaults(config, keys) <==> MESSAGES + key in config
  {
    if keys != [] {
      var last := keys[|keys| - 1];
      assert last != key;
      assert MESSAGES + last != MESSAGES + key by {
        assert (MESSAGES + last)[|MESSAGES|..] == last;
        assert (MESSAGES + key)[|MESSAGES|..] == key;
      }
      UncheckedKeyUntouched(config, keys[..|keys| - 1], key);
    }
  }

  /** `replacements` applied two at a time while `i < length - 1`, so a trailing element
      without a partner is never read. */
  method ReplacePairs(text: string, replacements: seq<string>) returns (r: string)
    ensures r == ApplyPairs(text, Pairs(replacements))
  {
    r := text;
    if |replacements| > 0 {
      var i := 0;
      while i < |replacements| - 1
        invariant i % 2 == 0 && i <= |replacements|
        invariant r == ApplyPairs(text, Pairs(replacements[..i]))
      {
        PairsSnoc(replacements, i);
        var pairs := Pairs(replacements[..i]) + [(replacements[i], replacements[i + 1])];
        assert pairs[..|pairs| - 1] == Pairs(replacements[..i]);
        r := ReplaceAll(r, replacements[i], replacements[i + 1]);
        i := i + 2;
      }
      PairsComplete(replacements, i);
    }
  }

  /** What `getMessage(path, replacements...)` returns: the configured text (or the
      not-found text naming the path), coloured and substituted, after the coloured prefix
      unless the path is the prefix itself. */
  function MessageOf(config: Config, colorize: Colorize, path: string, replacements: seq<string>): string
  {
    (if path == "prefix" then "" else colorize(GetString(config, MESSAGES + "prefix", "")))
      + ProcessLine(colorize, GetString(config, MESSAGES + path, MESSAGE_NOT_FOUND + path), replacements)
  }

  /** A missing message names its path, after the prefix; the prefix itself comes back
      without a second copy in front; an unpaired last replacement changes nothing. */
  lemma MessageCases(config: Config, colorize: Colorize, path: string, replacements: seq<string>)
    ensures MESSAGES + path !in config && path != "prefix" && |replacements| < 2 ==>
      MessageOf(config, colorize, path, replacements)
        == colorize(GetString(config, MESSAGES + "prefix", "")) + colorize(MESSAGE_NOT_FOUND + path)
    ensures MessageOf(config, colorize, "prefix", [])
      == colorize(GetString(config, MESSAGES + "prefix", MESSAGE_NOT_FOUND + "prefix"))
    ensures |replacements| % 2 == 1 ==>
      MessageOf(config, colorize, path, replacements)
        == MessageOf(config, colorize, path, replacements[..|replacements| - 1])
  {
    NoPairsNoChange(colorize(GetString(config, MESSAGES + "prefix", MESSAGE_NOT_FOUND + "prefix")), []);
    if |replacements| < 2 {
      NoPairsNoChange(colorize(GetString(config, MESSAGES + path, MESSAGE_NOT_FOUND + path)), replacements);
    }
    if |replacements| % 2 == 1 {
      PairsIgnoreTrailing(replacements);
    }
  }

  class ConfigManager {
    /** The loaded `config.yml`. */
    var config: Config
    /** The colour-code translation messages pass through. */
    const colorize: Colorize

    /** Loads the configuration and validates it. */
    constructor (loaded: Config, colorize: Colorize)
      ensures this.colorize == colorize
      ensures config == WithDefaults(loaded, REQUIRED_MESSAGES)
    {
      this.config := loaded;
      this.colorize := colorize;
      new;
      var hasErrors := ValidateConfig();
    }

    /** `reloadConfig`: takes the reloaded configuration and validates it again. */
    method ReloadConfig(reloaded: Config)
      modifies this`config
      ensures config == WithDefaults(reloaded, REQUIRED_MESSAGES)
    {
      config := reloaded;
      var hasErrors := ValidateConfig();
    }

    /** A text setting trimmed: it starts and ends on a non-blank character, and it is
        empty exactly when the configured text (or the default) is blank. */
    function TrimmedSetting(path: string, def: string): (r: string)
      reads this
      ensures r == [] || (!IsTrimmable(r[0]) && !IsTrimmable(r[|r| - 1]))
      ensures r == [] <==> IsBlank(GetString(config, path, def))
      ensures path in config && config[path].Text? ==> r == Trim(config[path].text)
      ensures !(path in config && config[path].Text?) ==> r == Trim(def)
      ensures path !in config ==> r == Trim(def)
    {
      TrimBounds(GetString(config, path, def));
      Trim(GetString(config, path, def))
    }

    /** A trimmed setting has no stray blank left for a second `trim` to remove. */
    lemma TrimmedSettingIsStable(path: string, def: string)
      ensures Trim(TrimmedSetting(path, def)) == TrimmedSetting(path, def)
    {
      TrimIdempotent(GetString(config, path, def));
    }

    function GetDbHost(): (r: string)
      reads this
      ensures HOST_PATH in config && config[HOST_PATH].Text? ==> r == Trim(config[HOST_PATH].text)
      ensures HOST_PATH !in config ==> r == "localhost"
    {
      TrimmedSetting(HOST_PATH, "localhost")
    }

    /** The configured port if it is a valid one, otherwise 3306. */
    function GetDbPort(): (r: int)
      reads this
      ensures MIN_PORT <= r <= MAX_PORT
      ensures MIN_PORT <= GetWhole(config, PORT_PATH, DEFAULT_PORT) <= MAX_PORT ==> r == GetWhole(config, PORT_PATH, DEFAULT_PORT)
      ensures !(MIN_PORT <= GetWhole(config, PORT_PATH, DEFAULT_PORT) <= MAX_PORT) ==> r == DEFAULT_PORT
    {
      var port := GetWhole(config, PORT_PATH, DEFAULT_PORT);
      if MIN_PORT <= port <= MAX_PORT then port else DEFAULT_PORT
    }

    function GetDbName(): (r: string)
      reads this
      ensures NAME_PATH in config && config[NAME_PATH].Text? ==> r == Trim(config[NAME_PATH].text)
      ensures NAME_PATH !in config ==> r == "giftbox"
    {
      TrimmedSetting(NAME_PATH, "giftbox")
    }

    function GetDbUser(): (r: string)
      reads this
      ensures USER_PATH in config && config[USER_PATH].Text? ==> r == Trim(config[USER_PATH].text)
      ensures USER_PATH !in config ==> r == "root"
    {
      TrimmedSetting(USER_PATH, "root")
    }

    /** The password exactly as configured: it may be empty or blank, so it is not trimmed. */
    function GetDbPassword(): (r: string)
      reads this
      ensures PASSWORD_PATH in config && config[PASSWORD_PATH].Text? ==> r == config[PASSWORD_PATH].text
      ensures PASSWORD_PATH !in config ==> r == "password"
    {
      GetString(config, PASSWORD_PATH, "password")
    }

    /** Seconds between sweeps: the configured value (600 if there is none), at least 60. */
    function GetExpirationCheckInterval(): (r: int)
      reads this
      ensures r >= MIN_INTERVAL && r >= GetWhole(config, INTERVAL_PATH, DEFAULT_INTERVAL)
      ensures r == MIN_INTERVAL || r == GetWhole(config, INTERVAL_PATH, DEFAULT_INTERVAL)
      ensures INTERVAL_PATH !in config ==> r == DEFAULT_INTERVAL
    {
      var interval := GetWhole(config, INTERVAL_PATH, DEFAULT_INTERVAL);
      if interval >= MIN_INTERVAL then interval else MIN_INTERVAL
    }

    /** The notice cooldown in thousandths of a second: the configured value (0.2 s if
        there is none), never negative. */
    function GetGuiMessageCooldown(): (r: int)
      reads this
      ensures r >= 0 && r >= GetMilli(config, COOLDOWN_PATH, DEFAULT_COOLDOWN_MILLI)
      ensures r == 0 || r == GetMilli(config, COOLDOWN_PATH, DEFAULT_COOLDOWN_MILLI)
      ensures COOLDOWN_PATH !in config ==> r == DEFAULT_COOLDOWN_MILLI
    {
      var cooldown := GetMilli(config, COOLDOWN_PATH, DEFAULT_COOLDOWN_MILLI);
      if cooldown >= 0 then cooldown else 0
    }

    /** `getRawMessage`: the coloured text at the message path, or the coloured empty text. */
    function GetRawMessage(path: string): (r: string)
      reads this
      ensures MESSAGES + path in config && config[MESSAGES + path].Text? ==> r == colorize(config[MESSAGES + path].text)
      ensures MESSAGES + path !in config ==> r == colorize("")
    {
      colorize(GetString(config, MESSAGES + path, ""))
    }

    /** `setDefaultMessage`: stores the default text of a key that has one. */
    method SetDefaultMessage(key: string)
      modifies this`config
      ensures config == if DefaultMessage(key).Some? then old(config)[MESSAGES + key := Text(DefaultMessage(key).value)] else old(config)
    {
      if key == "prefix" {
        config := config[MESSAGES + "prefix" := Text("&f[&dGiftBox&f] ")];
      } else if key == "no-permission" {
        config := config[MESSAGES + "no-permission" := Text("&cYou don't have permission to use this command.")];
      } else if key == "loading-error" {
        config := config[MESSAGES + "loading-error" := Text("&cFailed to load gifts. Please try again.")];
      }
    }

    /** `validateConfig`: reports a critical error exactly when host, database name or user
        is blank. The port, interval and cooldown checks never fire, since the getters have
        already repaired those values; then every required message that is missing gets its
        default text, where there is one. */
    method ValidateConfig() returns (hasErrors: bool)
      modifies this`config
      ensures hasErrors <==> old(GetDbHost()) == [] || old(GetDbName()) == [] || old(GetDbUser()) == []
      ensures config == WithDefaults(old(config), REQUIRED_MESSAGES)
    {
      hasErrors := CheckDatabaseSettings();
      ResetNegativeCooldown();
      FillMissingMessages();
    }

    /** The database checks of `validateConfig`: the port check can never fire, because
        `getDbPort` only ever returns a valid port. */
    method CheckDatabaseSettings() returns (hasErrors: bool)
      ensures hasErrors <==> GetDbHost() == [] || GetDbName() == [] || GetDbUser() == []
    {
      hasErrors := false;
      if GetDbHost() == [] {
        hasErrors := true;
      }
      if GetDbPort() < MIN_PORT || GetDbPort() > MAX_PORT {
        hasErrors := true;
      }
      if GetDbName() == [] {
        hasErrors := true;
      }
      if GetDbUser() == [] {
        hasErrors := true;
      }
    }

    /** The cooldown reset of `validateConfig`, which never happens: `getGuiMessageCooldown`
        is never negative. */
    method ResetNegativeCooldown()
      modifies this`config
      ensures config == old(config)
    {
      var validated := config;
      if GetGuiMessageCooldown() < 0 {
        validated := config[COOLDOWN_PATH := Decimal(DEFAULT_COOLDOWN_MILLI)];
      }
      config := validated;
    }

    /** The required-message loop of `validateConfig`. */
    method FillMissingMessages()
      modifies this`config
      ensures config == WithDefaults(old(config), REQUIRED_MESSAGES)
    {
      for i := 0 to |REQUIRED_MESSAGES|
        invariant config == WithDefaults(old(config), REQUIRED_MESSAGES[..i])
      {
        assert REQUIRED_MESSAGES[..i + 1][..i] == REQUIRED_MESSAGES[..i];
        var key := REQUIRED_MESSAGES[i];
        if MESSAGES + key !in config {
          SetDefaultMessage(key);
        }
      }
      assert REQUIRED_MESSAGES[..|REQUIRED_MESSAGES|] == REQUIRED_MESSAGES;
    }

    /** `getMessage(path, replacements...)`. */
    method GetMessage(path: string, replacements: seq<string>) returns (m: string)
      ensures m == MessageOf(config, colorize, path, replacements)
    {
      var message := GetString(config, MESSAGES + path, MESSAGE_NOT_FOUND + path);
      message := colorize(message);
      message := ReplacePairs(message, replacements);
      if path != "prefix" {
        return GetRawMessage("prefix") + message;
      }
      m := message;
    }

    /** `getMessageList(path, replacements...)`: one line out per configured line, in order,
        each coloured and substituted as `getMessage` does; no lines if there are none. */
    method GetMessageList(path: string, replacements: seq<string>) returns (lines: seq<string>)
      ensures |lines| == |GetStringList(config, MESSAGES + path)|
      ensures forall k | 0 <= k < |lines| ::
        lines[k] == ProcessLine(colorize, GetStringList(config, MESSAGES + path)[k], replacements)
    {
      var messages := GetStringList(config, MESSAGES + path);
      lines := [];
      for i := 0 to |messages|
        invariant |lines| == i
        invariant forall k | 0 <= k < i :: lines[k] == ProcessLine(colorize, messages[k], replacements)
      {
        var processed := colorize(messages[i]);
        processed := ReplacePairs(processed, replacements);
        lines := lines + [processed];
      }
    }
  }
}
