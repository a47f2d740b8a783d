/** The upload: which reader its name selects, the columns it must carry, and the
    name of the report offered for download. */
module Upload {
  import opened Results

  /** The readers the analysis dispatches to. */
  datatype Format = Excel | GeoJson | Kml

  /** `s` ends with `suffix` (a case-sensitive `endswith`). */
  predicate EndsWith(s: string, suffix: string) {
    |suffix| <= |s| && s[|s| - |suffix|..] == suffix
  }

  /** The suffix that selects each reader. */
  function SuffixOf(f: Format): string {
    match f
    case Excel => ".xlsx"
    case GeoJson => ".geojson"
    case Kml => ".kml"
  }

  /** The suffix tests in the script's order: `.xlsx`, then `.geojson`, then `.kml`;
      any other name stops the run. */
  function FormatOf(name: string): Result<Format, Failure> {
    if EndsWith(name, ".xlsx") then Success(Excel)
    else if EndsWith(name, ".geojson") then Success(GeoJson)
    else if EndsWith(name, ".kml") then Success(Kml)
    else Failure(UnsupportedFormat)
  }

  /** A name ending in `s` ends in `s`'s last character. */
  lemma EndsWithLast(name: string, s: string)
    requires EndsWith(name, s) && |s| > 0
    ensures name[|name| - 1] == s[|s| - 1]
  {
    assert name[|name| - |s|..][|s| - 1] == s[|s| - 1];
  }

  /** The reader chosen is the one whose suffix the name carries, and a name carrying
      none of the three suffixes is refused. */
  lemma FormatOfSpec(name: string)
    ensures forall f :: FormatOf(name) == Success(f) <==> EndsWith(name, SuffixOf(f))
    ensures FormatOf(name).Failure? <==> forall f :: !EndsWith(name, SuffixOf(f))
    ensures FormatOf(name).Failure? ==> FormatOf(name).error == UnsupportedFormat
  {
    forall f | EndsWith(name, SuffixOf(f)) ensures FormatOf(name) == Success(f) {
      EndsWithLast(name, SuffixOf(f));
      if EndsWith(name, ".xlsx") {
        EndsWithLast(name, ".xlsx");
      }
      if EndsWith(name, ".geojson") {
        EndsWithLast(name, ".geojson");
      }
    }
  }

  /** The columns every upload must have. */
  const RequiredColumns: seq<string> := ["wkt_geom", "Plantation Code"]

  /** The required-columns check: the upload goes on when it has every required column. */
  function CheckColumns(columns: seq<string>): (r: Result<(), Failure>)
    ensures r.Success? <==> forall c :: c in RequiredColumns ==> c in columns
    ensures r.Failure? ==> r.error == MissingColumns
  {
    if "wkt_geom" in columns && "Plantation Code" in columns then Success(()) else Failure(MissingColumns)
  }

  /** `name.split('.')[0]`: everything before the first dot, the whole name when there
      is none. */
  function Stem(name: string): (r: string)
    ensures |r| <= |name| && r == name[..|r|]
    ensures '.' !in r
    ensures |r| < |name| ==> name[|r|] == '.'
  {
    if name == [] || name[0] == '.' then []
    else [name[0]] + Stem(name[1..])
  }

  /** The name with every space turned into an underscore (:345). */
  function Underscored(s: string): (r: string)
    ensures |r| == |s|
    ensures forall i :: 0 <= i < |s| ==> r[i] == (if s[i] == ' ' then '_' else s[i])
  {
    if s == [] then [] else [if s[0] == ' ' then '_' else s[0]] + Underscored(s[1..])
  }

  const ReportPrefix: string := "geospatial_report_"
  const ReportSuffix: string := ".xlsx"

  /** The download name: the upload's stem with spaces made underscores, wrapped in the
      report prefix and the Excel suffix. */
  function ReportFileName(uploadName: string): string {
    ReportPrefix + Underscored(Stem(uploadName)) + ReportSuffix
  }

  /** The stem is determined by the name alone: it is the unique dot-free prefix that is
      the whole name or is followed by a dot. */
  lemma StemUnique(name: string, s: string)
    requires |s| <= |name| && s == name[..|s|] && '.' !in s
    requires |s| < |name| ==> name[|s|] == '.'
    ensures s == Stem(name)
  {
    var t := Stem(name);
    assert |s| == |t|;
  }

  /** A dot-free base name with an extension has that base name as its stem. */
  lemma StemOfExtended(base: string, ext: string)
    requires '.' !in base
    ensures Stem(base + "." + ext) == base
  {
    var name := base + "." + ext;
    assert name[..|base|] == base;
    assert name[|base|] == '.';
    StemUnique(name, base);
  }

  /** The download name carries the prefix and the suffix, and between them the stem
      with every space made an underscore: no space and no dot. */
  lemma ReportFileNameSpec(uploadName: string)
    ensures EndsWith(ReportFileName(uploadName), ReportSuffix)
    ensures ReportFileName(uploadName)[..|ReportPrefix|] == ReportPrefix
    ensures var middle := ReportFileName(uploadName)[|ReportPrefix|..|ReportFileName(uploadName)| - |ReportSuffix|];
      && middle == Underscored(Stem(uploadName))
      && ' ' !in middle && '.' !in middle
      && |middle| == |Stem(uploadName)|
  {
    var u := Underscored(Stem(uploadName));
    var name := ReportFileName(uploadName);
    assert name == ReportPrefix + u + ReportSuffix;
    assert name[|ReportPrefix|..|name| - |ReportSuffix|] == u;
    assert name[|name| - |ReportSuffix|..] == ReportSuffix;
    forall i | 0 <= i < |u| ensures u[i] != ' ' && u[i] != '.' {
      assert Stem(uploadName)[i] in Stem(uploadName);
    }
  }

  /** An upload named "a b.v2.kml" is reported as "geospatial_report_a_b.xlsx". */
  lemma ReportFileNameExample()
    ensures ReportFileName("a b.v2.kml") == "geospatial_report_a_b.xlsx"
  {
    StemOfExtended("a b", "v2.kml");
    assert "a b" + "." + "v2.kml" == "a b.v2.kml";
    assert Underscored("a b") == "a_b";
  }
}
