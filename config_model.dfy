/** What both configuration managers read: the loaded `config.yml` as a map from dotted
    paths to values, the typed lookups with their fallbacks, and the pairwise
    `%placeholder%` substitution both `getMessage` and `getMessageList` apply. */
module ConfigModel {
  import opened JavaText

  /** A configured value. Numbers with a fractional part are kept in thousandths, so 0.2
      is `Decimal(200)`. */
  datatype Value = Text(text: string) | Whole(n: int) | Decimal(milli: int) | Lines(lines: seq<string>)

  type Config = map<string, Value>

  /** `ChatColor.translateAlternateColorCodes('&', ·)`, a library call this model leaves
      uninterpreted: every message passes through whatever function is given. */
  type Colorize = string -> string

  /** `getString(path, def)`: the text at `path`, or `def` when there is none. */
  function GetString(config: Config, path: string, def: string): (r: string)
    ensures path in config && config[path].Text? ==> r == config[path].text
    ensures !(path in config && config[path].Text?) ==> r == def
  {
    if path in config && config[path].Text? then config[path].text else def
  }

  /** Java's `(long)` of a number given in thousandths: truncation toward zero. */
  function TruncateMilli(milli: int): (r: int)
    ensures milli >= 0 ==> r * 1000 <= milli < r * 1000 + 1000
    ensures milli < 0 ==> r * 1000 - 1000 < milli <= r * 1000
    ensures milli >= 0 ==> r >= 0
    ensures milli <= 0 ==> r <= 0
  {
    if milli >= 0 then milli / 1000 else -((-milli) / 1000)
  }

  /** `getInt(path, def)` and `getLong(path, def)`: the number at `path` (a fractional one
      truncated), or `def` when there is none. */
  function GetWhole(config: Config, path: string, def: int): (r: int)
    ensures path !in config ==> r == def
    ensures path in config && config[path].Whole? ==> r == config[path].n
    ensures path in config && config[path].Decimal? ==> r == TruncateMilli(config[path].milli)
  {
    if path !in config then def
    else match config[path]
      case Whole(n) => n
      case Decimal(milli) => TruncateMilli(milli)
      case _ => def
  }

  /** `getDouble(path, def)` in thousandths: the number at `path`, or `defMilli`. */
  function GetMilli(config: Config, path: string, defMilli: int): (r: int)
    ensures path !in config ==> r == defMilli
    ensures path in config && config[path].Decimal? ==> r == config[path].milli
    ensures path in config && config[path].Whole? ==> r == 1000 * config[path].n
  {
    if path !in config then defMilli
    else match config[path]
      case Whole(n) => 1000 * n
      case Decimal(milli) => milli
      case _ => defMilli
  }

  /** `getStringList(path)`: the lines at `path`, or none. */
  function GetStringList(config: Config, path: string): (r: seq<string>)
    ensures path in config && config[path].Lines? ==> r == config[path].lines
    ensures !(path in config && config[path].Lines?) ==> r == []
  {
    if path in config && config[path].Lines? then config[path].lines else []
  }

  /** Where the messages live. */
  const MESSAGES: string := "messages."
  /** The text a missing message is replaced by, before its path. */
  const MESSAGE_NOT_FOUND: string := "&cMessage not found: "

  /** The varargs `replacements` read two at a time: element 2k is replaced by element
      2k + 1. */
  function Pairs(replacements: seq<string>): seq<(string, string)>
  {
    seq(|replacements| / 2, k requires 0 <= k < |replacements| / 2 => (replacements[2 * k], replacements[2 * k + 1]))
  }

  /** The pairs applied in order, the first pair first. */
  function ApplyPairs(text: string, pairs: seq<(string, string)>): string
  {
    if pairs == [] then text
    else
      var last := pairs[|pairs| - 1];
      ReplaceAll(ApplyPairs(text, pairs[..|pairs| - 1]), last.0, last.1)
  }

  /** One line of a message after colouring and substitution. */
  function ProcessLine(colorize: Colorize, line: string, replacements: seq<string>): string
  {
    ApplyPairs(colorize(line), Pairs(replacements))
  }

  /** Pairing reads the elements in order: one more pair of elements adds one pair. */
  lemma PairsSnoc(replacements: seq<string>, i: nat)
    requires i % 2 == 0 && i + 1 < |replacements|
    ensures Pairs(replacements[..i + 2]) == Pairs(replacements[..i]) + [(replacements[i], replacements[i + 1])]
  {
  }

  /** Once the index has passed the last full pair, the pairs read so far are all of them. */
  lemma PairsComplete(replacements: seq<string>, i: nat)
    requires i % 2 == 0 && i <= |replacements| <= i + 1
    ensures Pairs(replacements[..i]) == Pairs(replacements)
  {
  }

  /** A trailing element without a partner is ignored. */
  lemma PairsIgnoreTrailing(replacements: seq<string>)
    requires |replacements| % 2 == 1
    ensures Pairs(replacements) == Pairs(replacements[..|replacements| - 1])
  {
  }

  /** With fewer than two elements nothing is substituted. */
  lemma NoPairsNoChange(text: string, replacements: seq<string>)
    requires |replacements| < 2
    ensures ApplyPairs(text, Pairs(replacements)) == text
  {
  }

  /** One pair of replacements: a line without the placeholder is left as it was, and a
      line that is exactly the placeholder becomes the value. */
  lemma OnePairSubstitution(line: string, placeholder: string, value: string)
    requires placeholder != []
    ensures (forall i :: !OccursAt(line, placeholder, i)) ==> ApplyPairs(line, Pairs([placeholder, value])) == line
    ensures ApplyPairs(placeholder, Pairs([placeholder, value])) == value
  {
    assert Pairs([placeholder, value]) == [(placeholder, value)];
    if forall i :: !OccursAt(line, placeholder, i) {
      ReplaceAbsent(line, placeholder, value);
    }
    WholeTextReplaced(placeholder, value);
  }

  /** A pair that maps a placeholder to itself changes nothing, wherever it stands in the
      list. */
  lemma {:induction false} IdentityPairsChangeNothing(text: string, pairs: seq<(string, string)>)
    requires forall k | 0 <= k < |pairs| :: pairs[k].0 == pairs[k].1
    ensures ApplyPairs(text, pairs) == text
  {
    if pairs != [] {
      IdentityPairsChangeNothing(text, pairs[..|pairs| - 1]);
      ReplaceBySelf(text, pairs[|pairs| - 1].0);
    }
  }
}
