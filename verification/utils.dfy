/**
 * `Utils.checkParams` and `Utils.buildUploadScript`: the check that a
 * parameter is present and not blank, and the Gradle upload script built
 * from eight such parameters.
 *
 * Java strings are sequences of UTF-16 code units; they are modelled as
 * Dafny `string`s, sequences of Unicode scalar values.  The only test on
 * characters, `trim`'s "at most U+0020", gives the same answer on either:
 * a code unit or scalar value at most U+0020 is the same single character,
 * and every other one (surrogates included) is above it.
 * An absent (`null`) parameter is `None`.
 */
module Utils {
  import opened Wrappers

  /** The exception `checkParams` throws, with the message it was given. */
  datatype Failure = IllegalArgumentException(message: string)

  /** Every character is at most U+0020: what Java's `trim` removes entirely. */
  predicate Blank(s: string) {
    forall i | 0 <= i < |s| :: s[i] <= ' '
  }

  /** The index of the first character above U+0020 at or after `i`, or `|s|`. */
  function SkipLeading(s: string, i: nat): (k: nat)
    requires i <= |s|
    ensures i <= k <= |s|
    ensures forall j | i <= j < k :: s[j] <= ' '
    ensures k < |s| ==> ' ' < s[k]
    decreases |s| - i
  {
    if i < |s| && s[i] <= ' ' then SkipLeading(s, i + 1) else i
  }

  /** The end of `s[lo..hi]` once characters at most U+0020 are dropped from its back. */
  function SkipTrailing(s: string, lo: nat, hi: nat): (k: nat)
    requires lo <= hi <= |s|
    ensures lo <= k <= hi
    ensures forall j | k <= j < hi :: s[j] <= ' '
    ensures lo < k ==> ' ' < s[k - 1]
  {
    if lo < hi && s[hi - 1] <= ' ' then SkipTrailing(s, lo, hi - 1) else hi
  }

  /**
   * Java's `String.trim`: the longest middle part of `s` that neither
   * starts nor ends with a character at most U+0020.
   */
  function Trim(s: string): (r: string)
    ensures |r| <= |s|
    ensures r == [] <==> Blank(s)
    ensures r != [] ==> ' ' < r[0] && ' ' < r[|r| - 1]
  {
    var lo := SkipLeading(s, 0);
    var hi := SkipTrailing(s, lo, |s|);
    assert lo < |s| ==> lo < hi;
    s[lo..hi]
  }

  /** Trimming a trimmed string changes nothing. */
  lemma TrimIdempotent(s: string)
    ensures Trim(Trim(s)) == Trim(s)
  {
    var t := Trim(s);
    if t != [] {
      assert SkipLeading(t, 0) == 0;
      assert SkipTrailing(t, 0, |t|) == |t|;
    }
  }

  /** `Trim` only drops characters at most U+0020, and only from the two ends. */
  lemma TrimIsInfix(s: string)
    ensures exists lo | 0 <= lo <= |s| - |Trim(s)| ::
      s[lo..lo + |Trim(s)|] == Trim(s) && Blank(s[..lo]) && Blank(s[lo + |Trim(s)|..])
  {
    var lo := SkipLeading(s, 0);
    var hi := SkipTrailing(s, lo, |s|);
    assert Trim(s) == s[lo..hi];
    assert Blank(s[..lo]);
    assert Blank(s[hi..]);
  }

  /** A parameter `checkParams` accepts: present, and not blank. */
  predicate Filled(p: Option<string>) {
    p.Some? && !Blank(p.value)
  }

  /**
   * `checkParams(params, errorMsg)`: `true` when the parameter is present
   * and its trimmed form is non-empty; otherwise the exception carrying
   * `errorMsg`.
   */
  function CheckParams(p: Option<string>, msg: string): (r: Result<bool, Failure>)
    ensures r.Ok? <==> p.Some? && exists i | 0 <= i < |p.value| :: ' ' < p.value[i]
    ensures r.Ok? ==> r.value
    ensures r.Err? ==> r.error == IllegalArgumentException(msg)
  {
    if p.None? || |Trim(p.value)| == 0 then
      Err(IllegalArgumentException(msg))
    else
      Ok(true)
  }

  /** `CheckParams` accepts exactly the `Filled` parameters. */
  lemma CheckParamsFilled(p: Option<string>, msg: string)
    ensures CheckParams(p, msg).Ok? <==> Filled(p)
  {
  }

  /**
   * The checks of `buildUploadScript` in order: the values of the
   * parameters when all are filled, or the failure of the first one that
   * is not, whose message is its name followed by ` == null`.
   */
  function CheckAll(names: seq<string>, ps: seq<Option<string>>): (r: Result<seq<string>, Failure>)
    requires |names| == |ps|
    ensures r.Ok? <==> forall i | 0 <= i < |ps| :: Filled(ps[i])
    ensures r.Ok? ==> |r.value| == |ps| && forall i | 0 <= i < |ps| :: ps[i] == Some(r.value[i])
    ensures r.Err? ==> exists k | 0 <= k < |ps| :: FirstUnfilled(ps, k) && r.error == IllegalArgumentException(names[k] + " == null")
  {
    if ps == [] then
      Ok([])
    else
      CheckParamsFilled(ps[0], names[0] + " == null");
      match CheckParams(ps[0], names[0] + " == null")
      case Err(e) =>
        assert FirstUnfilled(ps, 0);
        Err(e)
      case Ok(_) =>
        match CheckAll(names[1..], ps[1..])
        case Err(e) =>
          FirstUnfilledShift(names, ps, e);
          Err(e)
        case Ok(rest) =>
          Ok([ps[0].value] + rest)
  }

  /** `ps[k]` is the first parameter that is not filled. */
  predicate FirstUnfilled(ps: seq<Option<string>>, k: nat)
    requires k < |ps|
  {
    !Filled(ps[k]) && forall i | 0 <= i < k :: Filled(ps[i])
  }

  /** A failure found in `ps[1..]` is, behind a filled `ps[0]`, the failure of `ps`. */
  lemma FirstUnfilledShift(names: seq<string>, ps: seq<Option<string>>, e: Failure)
    requires |names| == |ps| && ps != [] && Filled(ps[0])
    requires exists k | 0 <= k < |ps| - 1 :: FirstUnfilled(ps[1..], k) && e == IllegalArgumentException(names[1..][k] + " == null")
    ensures exists k | 0 <= k < |ps| :: FirstUnfilled(ps, k) && e == IllegalArgumentException(names[k] + " == null")
  {
    var k :| 0 <= k < |ps| - 1 && FirstUnfilled(ps[1..], k) && e == IllegalArgumentException(names[1..][k] + " == null");
    forall i | 0 <= i < k + 1
      ensures Filled(ps[i])
    {
      if i > 0 {
        assert ps[i] == ps[1..][i - 1];
      }
    }
    assert FirstUnfilled(ps, k + 1);
  }

  /** The names of the eight parameters of `buildUploadScript`, in the order they are checked and written. */
  const FIELDS: seq<string> :=
    ["url", "userName", "password", "groupId", "artifactId", "version", "packaging", "description"]

  /** The first line of the script. */
  const HEADER: string := "def nexus_maven = [:]\n"

  /** One field line of the script: `nexus_maven.<name> = "<value>"`. */
  function FieldLine(name: string, value: string): string {
    "nexus_maven." + name + " = \"" + value + "\"\n"
  }

  /** The field lines for `names` and `values`, in order. */
  function FieldLines(names: seq<string>, values: seq<string>): string
    requires |names| == |values|
  {
    if names == [] then [] else FieldLine(names[0], values[0]) + FieldLines(names[1..], values[1..])
  }

  /** What follows the field lines: the same for every input, ending in `}` and no newline. */
  const TEMPLATE: string := TEMPLATE_BODY + "}"

  /** The template up to its closing brace. */
  const TEMPLATE_BODY: string :=
    "\n"
    + "apply plugin: 'maven'\n"
    + "\n"
    + "task androidJavadocs(type: Javadoc) {\n"
    + "    options.encoding = \"UTF-8\"\n"
    + "    source = android.sourceSets.main.java.srcDirs\n"
    + "    classpath += project.files(android.getBootClasspath().join(File.pathSeparator))\n"
    + "}\n"
    + "\n"
    + "task androidJavadocsJar(type: Jar, dependsOn: androidJavadocs) {\n"
    + "    classifier = 'javadoc'\n"
    + "    from androidJavadocs.destinationDir\n"
    + "}\n"
    + "\n"
    + "task androidSourcesJar(type: Jar) {\n"
    + "    classifier = 'sources'\n"
    + "    from android.sourceSets.main.java.srcDirs\n"
    + "}\n"
    + "\n"
    + "artifacts {\n"
    + "    archives androidSourcesJar\n"
    + "    archives androidJavadocsJar\n"
    + "}\n"
    + "\n"
    + "uploadArchives {\n"
    + "    repositories {\n"
    + "        mavenDeployer {\n"
    + "            repository(url: \"$nexus_maven.url\") {\n"
    + "                authentication(userName: \"$nexus_maven.userName\", password: \"$nexus_maven.password\")\n"
    + "            }\n"
    + "            pom.project {\n"
    + "                groupId \"$nexus_maven.groupId\"\n"
    + "                artifactId \"$nexus_maven.artifactId\"\n"
    + "                version \"$nexus_maven.version\"\n"
    + "                packaging \"$nexus_maven.packaging\"\n"
    + "                description \"$nexus_maven.description\"\n"
    + "            }\n"
    + "        }\n"
    + "    }\n"

  /** The script for the eight checked values. */
  function Script(values: seq<string>): string
    requires |values| == 8
  {
    HEADER + FieldLines(FIELDS, values) + TEMPLATE
  }

  /**
   * `buildUploadScript(url, …, description)`: every parameter is checked in
   * order and the first that is absent or blank fails with its name; then
   * the header, one field line per parameter and the fixed template.
   */
  function BuildUploadScript(
    url: Option<string>, userName: Option<string>, password: Option<string>, groupId: Option<string>,
    artifactId: Option<string>, version: Option<string>, packaging: Option<string>, description: Option<string>
  ): (r: Result<string, Failure>)
    ensures var ps := [url, userName, password, groupId, artifactId, version, packaging, description];
      && (r.Ok? <==> forall i | 0 <= i < 8 :: Filled(ps[i]))
      && (r.Err? ==> exists k | 0 <= k < 8 :: FirstUnfilled(ps, k) && r.error == IllegalArgumentException(FIELDS[k] + " == null"))
      && (r.Ok? ==> r.value == Script(seq(8, i requires 0 <= i < 8 => ps[i].value)))
  {
    var ps := [url, userName, password, groupId, artifactId, version, packaging, description];
    var values :- CheckAll(FIELDS, ps);
    assert values == seq(8, i requires 0 <= i < 8 => ps[i].value);
    Ok(Script(values))
  }

  /**
   * The layout of a script: the header, then the field lines, the `k`-th
   * naming `FIELDS[k]` (url, userName, password, groupId, artifactId,
   * version, packaging, description) with the `k`-th value, then the
   * template.
   */
  lemma ScriptLayout(values: seq<string>, k: nat)
    requires |values| == 8 && k < 8
    ensures Script(values) == HEADER
      + FieldLines(FIELDS[..k], values[..k]) + FieldLine(FIELDS[k], values[k]) + FieldLines(FIELDS[k + 1..], values[k + 1..])
      + TEMPLATE
  {
    LayoutAt(HEADER, FIELDS, values, TEMPLATE_BODY, k);
  }

  /** `ScriptLayout` for any header, names and template body. */
  lemma LayoutAt(h: string, names: seq<string>, values: seq<string>, body: string, k: nat)
    requires |names| == |values| && k < |names|
    ensures h + FieldLines(names, values) + (body + "}") == h
      + FieldLines(names[..k], values[..k]) + FieldLine(names[k], values[k]) + FieldLines(names[k + 1..], values[k + 1..])
      + (body + "}")
  {
    FieldLinesAt(names, values, k);
  }

  /** `p` is a prefix of `s`. */
  predicate StartsWith(s: string, p: string) {
    |p| <= |s| && s[..|p|] == p
  }

  /** `p` is a suffix of `s`. */
  predicate EndsWith(s: string, p: string) {
    |p| <= |s| && s[|s| - |p|..] == p
  }

  /** Every script starts with the header and ends with the template, whose last character is `}`. */
  lemma ScriptEnds(values: seq<string>)
    requires |values| == 8
    ensures StartsWith(Script(values), HEADER)
    ensures EndsWith(Script(values), TEMPLATE)
    ensures EndsWith(Script(values), "}")
  {
    Framed(HEADER, FieldLines(FIELDS, values), TEMPLATE_BODY);
  }

  /** A string built as header, middle and a body closed by `}` keeps those parts at its ends. */
  lemma Framed(h: string, f: string, body: string)
    ensures StartsWith(h + f + (body + "}"), h)
    ensures EndsWith(h + f + (body + "}"), body + "}")
    ensures EndsWith(h + f + (body + "}"), "}")
  {
    assert h + f + (body + "}") == (h + f + body) + "}";
  }

  /** Field line `k` sits between the lines before it and the lines after it. */
  lemma {:induction false} FieldLinesAt(names: seq<string>, values: seq<string>, k: nat)
    requires |names| == |values| && k < |names|
    ensures FieldLines(names, values) ==
      FieldLines(names[..k], values[..k]) + FieldLine(names[k], values[k]) + FieldLines(names[k + 1..], values[k + 1..])
  {
    var first := FieldLine(names[0], values[0]);
    assert FieldLines(names, values) == first + FieldLines(names[1..], values[1..]);
    if k == 0 {
      assert names[..0] == [] && values[..0] == [];
    } else {
      FieldLinesAt(names[1..], values[1..], k - 1);
      assert names[1..][..k - 1] == names[..k][1..] && values[1..][..k - 1] == values[..k][1..];
      assert names[1..][k..] == names[k + 1..] && values[1..][k..] == values[k + 1..];
      var before := FieldLines(names[1..][..k - 1], values[1..][..k - 1]);
      assert FieldLines(names[..k], values[..k]) == first + before;
    }
  }
}
