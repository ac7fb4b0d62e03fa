/**
 * Dialect resolution: a free-form dialect name is title-cased and matched
 * exactly against a fixed alias table, giving the canonical label used to
 * find the dialect's row in the markup.
 */
module Dialects {
  import opened Wrappers
  import opened PyStr

  /** The twelve labels that resolution can produce. */
  const Labels: set<string> := {
    "Mandarin Chinese", "Cantonese", "Guangdong", "Gan Chinese", "Hakka Chinese",
    "Jin Chinese", "Northern Min", "Eastern Min", "Puxian Min", "Southern Min",
    "Wu Chinese", "Xiang Chinese"
  }

  /** Every title-cased alias the table accepts. */
  const Aliases: set<string> := {
    "Mandarin", "Cantonese", "Guangdong", "Gan", "Jiangxi", "Hakka", "Khek", "Kejia",
    "Jin", "Northern Min", "Kienow", "Kienning", "Minbei",
    "Eastern Min", "Fuzhounese", "Fuzhou", "Foochow", "Hokchew", "Hokciu", "Hukciu", "Mindong",
    "Hinghwa", "Putian", "Henghwa", "Hokkien", "Taiwanese", "Minnan", "Amoy",
    "Wu", "Shanghainese", "Xiang", "Hunan"
  }

  /**
   * The alias table, applied to an already title-cased name; `None` is the
   * raised `ValueError`. The table is exactly the alias set, and what an
   * alias maps to is one of the twelve labels.
   */
  function Canonical(alias: string): (r: Option<string>)
    ensures r.Some? <==> alias in Aliases
    ensures r.Some? ==> r.value in Labels
  {
    match alias
    case "Mandarin" => Some("Mandarin Chinese")
    case "Cantonese" | "Guangdong" => Some(alias)
    case "Gan" | "Jiangxi" => Some("Gan Chinese")
    case "Hakka" | "Khek" | "Kejia" => Some("Hakka Chinese")
    case "Jin" => Some("Jin Chinese")
    case "Northern Min" | "Kienow" | "Kienning" | "Minbei" => Some("Northern Min")
    case "Eastern Min" | "Fuzhounese" | "Fuzhou" | "Foochow" | "Hokchew" | "Hokciu" | "Hukciu" | "Mindong" =>
      Some("Eastern Min")
    case "Hinghwa" | "Putian" | "Henghwa" => Some("Puxian Min")
    case "Hokkien" | "Taiwanese" | "Minnan" | "Amoy" => Some("Southern Min")
    case "Wu" | "Shanghainese" => Some("Wu Chinese")
    case "Xiang" | "Hunan" => Some("Xiang Chinese")
    case _ => None
  }

  /**
   * `dialect_converter`: title-case the name, then look it up. A name
   * resolves if and only if its title-cased form is an alias (otherwise
   * `ValueError` is raised), and what it resolves to is one of the twelve labels.
   */
  function DialectConverter(name: string): (r: Option<string>)
    ensures r.Some? <==> Title(name) in Aliases
    ensures r.Some? ==> r.value in Labels
  {
    Canonical(Title(name))
  }

  /** The title token searched for in the markup, `f"w:{dialect}"`. */
  function TitleToken(dialect: string): (r: string)
    ensures |r| == |dialect| + 2 && r[..2] == "w:" && r[2..] == dialect
  {
    "w:" + dialect
  }

  /** Distinct labels are searched for with distinct tokens. */
  lemma TitleTokenInjective(a: string, b: string)
    requires TitleToken(a) == TitleToken(b)
    ensures a == b
  {
    assert a == TitleToken(a)[2..];
  }

  /** Resolution depends on the name only through its title-cased form. */
  lemma ResolutionDependsOnlyOnTitle(name: string)
    ensures DialectConverter(Title(name)) == DialectConverter(name)
  {
    TitleIdempotent(name);
  }

  /** Resolution is insensitive to the case in which the name is typed. */
  lemma ResolutionIgnoresCase(a: string, b: string)
    requires Lower(a) == Lower(b)
    ensures DialectConverter(a) == DialectConverter(b)
  {
    TitleIgnoresCase(a, b);
  }

  // The alias groups of the table, one lemma per label.

  /** A name whose title-cased form is one of these aliases resolves to "Mandarin Chinese". */
  lemma MandarinAliases(name: string)
    requires Title(name) == "Mandarin"
    ensures DialectConverter(name) == Some("Mandarin Chinese")
  {
  }

  /** "Cantonese" and "Guangdong" are returned unchanged, "Guangdong" is not mapped to "Cantonese". */
  lemma CantoneseAliases(name: string)
    requires Title(name) in {"Cantonese", "Guangdong"}
    ensures DialectConverter(name) == Some(Title(name))
  {
  }

  /** A name whose title-cased form is one of these aliases resolves to "Gan Chinese". */
  lemma GanAliases(name: string)
    requires Title(name) in {"Gan", "Jiangxi"}
    ensures DialectConverter(name) == Some("Gan Chinese")
  {
  }

  /** A name whose title-cased form is one of these aliases resolves to "Hakka Chinese". */
  lemma HakkaAliases(name: string)
    requires Title(name) in {"Hakka", "Khek", "Kejia"}
    ensures DialectConverter(name) == Some("Hakka Chinese")
  {
  }

  /** A name whose title-cased form is one of these aliases resolves to "Jin Chinese". */
  lemma JinAliases(name: string)
    requires Title(name) == "Jin"
    ensures DialectConverter(name) == Some("Jin Chinese")
  {
  }

  /** A name whose title-cased form is one of these aliases resolves to "Northern Min". */
  lemma NorthernMinAliases(name: string)
    requires Title(name) in {"Northern Min", "Kienow", "Kienning", "Minbei"}
    ensures DialectConverter(name) == Some("Northern Min")
  {
  }

  /** A name whose title-cased form is one of these aliases resolves to "Eastern Min". */
  lemma EasternMinAliases(name: string)
    requires Title(name) in {"Eastern Min", "Fuzhounese", "Fuzhou", "Foochow", "Hokchew", "Hokciu", "Hukciu", "Mindong"}
    ensures DialectConverter(name) == Some("Eastern Min")
  {
  }

  /** A name whose title-cased form is one of these aliases resolves to "Puxian Min". */
  lemma PuxianMinAliases(name: string)
    requires Title(name) in {"Hinghwa", "Putian", "Henghwa"}
    ensures DialectConverter(name) == Some("Puxian Min")
  {
  }

  /** A name whose title-cased form is one of these aliases resolves to "Southern Min". */
  lemma SouthernMinAliases(name: string)
    requires Title(name) in {"Hokkien", "Taiwanese", "Minnan", "Amoy"}
    ensures DialectConverter(name) == Some("Southern Min")
  {
  }

  /** A name whose title-cased form is one of these aliases resolves to "Wu Chinese". */
  lemma WuAliases(name: string)
    requires Title(name) in {"Wu", "Shanghainese"}
    ensures DialectConverter(name) == Some("Wu Chinese")
  {
  }

  /** A name whose title-cased form is one of these aliases resolves to "Xiang Chinese". */
  lemma XiangAliases(name: string)
    requires Title(name) in {"Xiang", "Hunan"}
    ensures DialectConverter(name) == Some("Xiang Chinese")
  {
  }

  /** Title-casing is what lets a lower-case spelling resolve. */
  lemma LowerCaseSpelling()
    ensures DialectConverter("hokkien") == Some("Southern Min")
  {
    assert Title("hokkien") == "Hokkien";
    SouthernMinAliases("hokkien");
  }

  /** Words must be separated as in the table: a run-together name is rejected. */
  lemma RunTogetherSpelling()
    ensures DialectConverter("northernmin").None?
  {
    assert Title("northernmin") == "Northernmin";
  }
}
