/** The legacy configuration manager: every getter returns the configured value or its
    default unchanged (no trimming, no range repair, no validation), and `getMessage` puts
    the prefix in front of every message, the prefix included. */
module LegacyConfig {
  import opened JavaText
  import opened ConfigModel
  import CreeperConfig
  import GiftTable

  /** `replacements` walked two at a time while `i < length`, a pair applied only when
      `i + 1 < length`, so a trailing element without a partner is skipped. */
  method LegacyReplacePairs(text: string, replacements: seq<string>) returns (r: string)
    ensures r == ApplyPairs(text, Pairs(replacements))
  {
    r := text;
    if |replacements| > 0 {
      var i := 0;
      while i < |replacements|
        invariant i % 2 == 0 && i <= |replacements| + 1
        invariant i <= |replacements| || |replacements| % 2 == 1
        invariant r == ApplyPairs(text, Pairs(replacements[..GiftTable.Min(i, |replacements|)]))
      {
        assert GiftTable.Min(i, |replacements|) == i;
        if i + 1 < |replacements| {
          PairsSnoc(replacements, i);
          var pairs := Pairs(replacements[..i]) + [(replacements[i], replacements[i + 1])];
          assert pairs[..|pairs| - 1] == Pairs(replacements[..i]);
          r := ReplaceAll(r, replacements[i], replacements[i + 1]);
        } else {
          PairsIgnoreTrailing(replacements);
          assert replacements[..i] == replacements[..|replacements| - 1];
          assert replacements[..|replacements|] == replacements;
        }
        i := i + 2;
      }
      assert replacements[..GiftTable.Min(i, |replacements|)] == replacements;
    }
  }

  /** What legacy `getMessage(path, replacements...)` returns: the coloured prefix, then
      the configured text (or the not-found text naming the path), coloured and
      substituted. */
  function LegacyMessageOf(config: Config, colorize: Colorize, path: string, replacements: seq<string>): string
  {
    colorize(GetString(config, MESSAGES + "prefix", ""))
      + ProcessLine(colorize, GetString(config, MESSAGES + path, MESSAGE_NOT_FOUND + path), replacements)
  }

  /** On the same configuration the two generations' messages are equal for every path but
      the prefix, which the legacy manager returns behind a second copy of itself. */
  lemma MessageGenerationsAgree(config: Config, colorize: Colorize, path: string, replacements: seq<string>)
    ensures path != "prefix" ==>
      LegacyMessageOf(config, colorize, path, replacements) == CreeperConfig.MessageOf(config, colorize, path, replacements)
    ensures LegacyMessageOf(config, colorize, "prefix", [])
      == colorize(GetString(config, MESSAGES + "prefix", "")) + CreeperConfig.MessageOf(config, colorize, "prefix", [])
  {
  }

  /** With the prefix `&f[GB] ` configured and an identity colouring, the legacy prefix
      message is the prefix twice. */
  lemma LegacyPrefixDoubled()
    ensures var config := map[MESSAGES + "prefix" := Text("&f[GB] ")];
      LegacyMessageOf(config, s => s, "prefix", []) == "&f[GB] &f[GB] "
  {
    var config := map[MESSAGES + "prefix" := Text("&f[GB] ")];
    NoPairsNoChange("&f[GB] ", []);
    assert GetString(config, MESSAGES + "prefix", MESSAGE_NOT_FOUND + "prefix") == "&f[GB] ";
  }

  class LegacyConfigManager {
    /** The loaded `config.yml`. */
    var config: Config
    /** The colour-code translation messages pass through. */
    const colorize: Colorize

    /** Loads the configuration as it is. */
    constructor (loaded: Config, colorize: Colorize)
      ensures this.colorize == colorize && config == loaded
    {
      this.config := loaded;
      this.colorize := colorize;
    }

    /** `reloadConfig`: takes the reloaded configuration as it is. */
    method ReloadConfig(reloaded: Config)
      modifies this`config
      ensures config == reloaded
    {
      config := reloaded;
    }

    /** A text setting as configured, untrimmed, or its default. */
    function Setting(path: string, def: string): (r: string)
      reads this
      ensures path in config && config[path].Text? ==> r == config[path].text
      ensures path !in config ==> r == def
    {
      GetString(config, path, def)
    }

    function GetDbHost(): (r: string)
      reads this
      ensures CreeperConfig.HOST_PATH !in config ==> r == "localhost"
    {
      Setting(CreeperConfig.HOST_PATH, "localhost")
    }

    /** The configured port, whatever it is, or 3306. */
    function GetDbPort(): (r: int)
      reads this
      ensures CreeperConfig.PORT_PATH in config && config[CreeperConfig.PORT_PATH].Whole? ==> r == config[CreeperConfig.PORT_PATH].n
      ensures CreeperConfig.PORT_PATH !in config ==> r == CreeperConfig.DEFAULT_PORT
    {
      GetWhole(config, CreeperConfig.PORT_PATH, CreeperConfig.DEFAULT_PORT)
    }

    function GetDbName(): (r: string)
      reads this
      ensures CreeperConfig.NAME_PATH !in config ==> r == "giftbox"
    {
      Setting(CreeperConfig.NAME_PATH, "giftbox")
    }

    function GetDbUser(): (r: string)
      reads this
      ensures CreeperConfig.USER_PATH !in config ==> r == "root"
    {
      Setting(CreeperConfig.USER_PATH, "root")
    }

    function GetDbPassword(): (r: string)
      reads this
      ensures CreeperConfig.PASSWORD_PATH !in config ==> r == "password"
    {
      Setting(CreeperConfig.PASSWORD_PATH, "password")
    }

    /** Seconds between sweeps as configured, even below 60, or 600. */
    function GetExpirationCheckInterval(): (r: int)
      reads this
      ensures CreeperConfig.INTERVAL_PATH in config && config[CreeperConfig.INTERVAL_PATH].Whole? ==>
        r == config[CreeperConfig.INTERVAL_PATH].n
      ensures CreeperConfig.INTERVAL_PATH !in config ==> r == CreeperConfig.DEFAULT_INTERVAL
    {
      GetWhole(config, CreeperConfig.INTERVAL_PATH, CreeperConfig.DEFAULT_INTERVAL)
    }

    /** The notice cooldown in thousandths of a second as configured, even negative, or 0.2 s. */
    function GetGuiMessageCooldown(): (r: int)
      reads this
      ensures CreeperConfig.COOLDOWN_PATH in config && config[CreeperConfig.COOLDOWN_PATH].Decimal? ==>
        r == config[CreeperConfig.COOLDOWN_PATH].milli
      ensures CreeperConfig.COOLDOWN_PATH !in config ==> r == CreeperConfig.DEFAULT_COOLDOWN_MILLI
    {
      GetMilli(config, CreeperConfig.COOLDOWN_PATH, CreeperConfig.DEFAULT_COOLDOWN_MILLI)
    }

    /** `getRawMessage`: the coloured text at the message path, or the coloured empty text. */
    function GetRawMessage(path: string): (r: string)
      reads this
      ensures MESSAGES + path in config && config[MESSAGES + path].Text? ==> r == colorize(config[MESSAGES + path].text)
      ensures MESSAGES + path !in config ==> r == colorize("")
    {
      colorize(GetString(config, MESSAGES + path, ""))
    }

    /** `getMessage(path, replacements...)`. */
    method GetMessage(path: string, replacements: seq<string>) returns (m: string)
      ensures m == LegacyMessageOf(config, colorize, path, replacements)
    {
      var message := GetString(config, MESSAGES + path, MESSAGE_NOT_FOUND + path);
      message := colorize(message);
      message := LegacyReplacePairs(message, replacements);
      m := GetRawMessage("prefix") + message;
    }

    /** `getMessageList(path, replacements...)`: one line out per configured line, in order,
        each coloured and substituted as `getMessage` does; no lines if there are none. */
    method GetMessageList(path: string, replacements: seq<string>) returns (lines: seq<string>)
      ensures |lines| == |GetStringList(config, MESSAGES + path)|
      ensures forall k | 0 <= k < |lines| ::
        lines[k] == ProcessLine(colorize, GetStringList(config, MESSAGES + path)[k], replacements)
    {
      var messages := GetStringList(config, MESSAGES + path);
      lines := [];
      for i := 0 to |messages|
        invariant |lines| == i
        invariant forall k | 0 <= k < i :: lines[k] == ProcessLine(colorize, messages[k], replacements)
      {
        var processed := colorize(messages[i]);
        processed := LegacyReplacePairs(processed, replacements);
        lines := lines + [processed];
      }
    }
  }

  /** On the same configuration the two generations' getters agree wherever the newer one
      has nothing to repair: a valid port, an interval of at least 60 seconds, a cooldown
      that is not negative, and text settings the newer one returns trimmed. */
  lemma GettersCompared(newer: CreeperConfig.ConfigManager, legacy: LegacyConfigManager)
    requires newer.config == legacy.config
    ensures CreeperConfig.MIN_PORT <= legacy.GetDbPort() <= CreeperConfig.MAX_PORT ==> newer.GetDbPort() == legacy.GetDbPort()
    ensures !(CreeperConfig.MIN_PORT <= legacy.GetDbPort() <= CreeperConfig.MAX_PORT) ==> newer.GetDbPort() == CreeperConfig.DEFAULT_PORT
    ensures newer.GetExpirationCheckInterval() == if legacy.GetExpirationCheckInterval() >= CreeperConfig.MIN_INTERVAL
      then legacy.GetExpirationCheckInterval() else CreeperConfig.MIN_INTERVAL
    ensures newer.GetGuiMessageCooldown() == if legacy.GetGuiMessageCooldown() >= 0 then legacy.GetGuiMessageCooldown() else 0
    ensures newer.GetDbHost() == Trim(legacy.GetDbHost()) && newer.GetDbName() == Trim(legacy.GetDbName())
    ensures newer.GetDbUser() == Trim(legacy.GetDbUser()) && newer.GetDbPassword() == legacy.GetDbPassword()
  {
  }
}
