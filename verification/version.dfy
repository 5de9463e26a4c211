/**
 * Version stamping: the build script turns the project's version number and git commit into the
 * Windows version resource (a display text and four 16-bit numbers) and into version.txt, which the
 * About dialog reads back into "Version V (Build C)".
 */
module Version {
  import opened Outcomes
  import opened Text

  /** Each of the four numbers of a Windows file version is masked to 16 bits (`& 0xffff`). */
  const PartModulus: nat := 0x1_0000

  /** An empty version number is replaced before anything is derived from it. */
  function EffectiveVersion(version: string): (r: string)
    ensures r != ""
    ensures version != "" ==> r == version
    ensures version == "" ==> r == "0.0.0"
  {
    if version == "" then "0.0.0" else version
  }

  /**
   * The FileVersion/ProductVersion text of the resource. The text format is itself what build.py
   * promises, so the contract spells it out case by case.
   */
  function VersionText(version: string, commit: string): (r: string)
    ensures commit == "" ==> r == EffectiveVersion(version)
    ensures commit != "" ==> r == EffectiveVersion(version) + " (Build " + commit + ")"
  {
    var v := EffectiveVersion(version);
    if commit != "" then v + " (Build " + commit + ")" else v
  }

  /**
   * Parts i..3 of the version, each already read by int() (None standing for its ValueError): a
   * missing part is 0 and a present one is masked; parts after the fourth are never looked at. On
   * Python's unbounded integers `& 0xffff` is the non-negative remainder modulo 65536, even for
   * negative values.
   */
  function PartsFrom(parsed: seq<Option<int>>, i: nat): (r: Option<seq<int>>)
    requires i <= 4
    ensures r.Some? ==> |r.value| == 4 - i
    ensures r.Some? ==> forall k :: 0 <= k < 4 - i ==> 0 <= r.value[k] < PartModulus as int
    ensures r.Some? <==> forall k :: i <= k < 4 ==> Field(parsed, k).Some?
    ensures r.Some? ==> forall k :: i <= k < 4 ==> r.value[k - i] == Field(parsed, k).value % PartModulus as int
    decreases 4 - i
  {
    if i == 4 then Some([])
    else
      match Field(parsed, i)
      case None => None
      case Some(v) =>
        match PartsFrom(parsed, i + 1)
        case None => None
        case Some(rest) => Some([v % PartModulus as int] + rest)
  }

  /** Part k, or 0 when the version has fewer parts. */
  function Field(parsed: seq<Option<int>>, k: nat): (r: Option<int>)
    ensures k >= |parsed| ==> r == Some(0)
    ensures k < |parsed| ==> r == parsed[k]
  {
    if k < |parsed| then parsed[k] else Some(0)
  }

  /** int() applied to each field. */
  function Parsed(fields: seq<string>): (r: seq<Option<int>>)
    ensures |r| == |fields| && forall k :: 0 <= k < |fields| ==> r[k] == ParseInt(fields[k])
  {
    seq(|fields|, k requires 0 <= k < |fields| => ParseInt(fields[k]))
  }

  /** The filevers/prodvers numbers of the resource: the version split on "." into four parts. */
  function VersionParts(version: string): (r: Option<seq<int>>)
    ensures r.Some? ==> |r.value| == 4
    ensures r.Some? ==> forall k :: 0 <= k < 4 ==> 0 <= r.value[k] < PartModulus as int
  {
    PartsFrom(Parsed(SplitOn(EffectiveVersion(version), '.')), 0)
  }

  /** The content main writes to version.txt; an unavailable commit is written as "". */
  function VersionFileText(version: string, commit: Option<string>): (r: string)
    ensures var c := if commit.Some? then commit.value else "";
      |r| == |version| + 1 + |c| && r[|version|] == '\n' && r[..|version|] == version && r[|version| + 1..] == c
  {
    version + "\n" + (match commit case Some(c) => c case None => "")
  }

  /**
   * AboutDialog.get_version_string on the text read from version.txt: unpacking the split into two
   * names raises ValueError (None here) unless there are exactly two fields.
   */
  function VersionString(content: string): (r: Option<string>)
    ensures r.Some? <==> |SplitOn(content, '\n')| == 2
  {
    var fields := SplitOn(content, '\n');
    if |fields| != 2 then None
    else
      var version, commit := fields[0], fields[1];
      if commit != "" then Some("Version " + version + " (Build " + commit + ")")
      else if version != "" then Some("Version " + version)
      else Some("")
  }

  // ---------------------------------------------------------------- properties

  /** None of the numbers of `ns`, spelled in decimal, contains ".". */
  lemma NoDotInNumbers(ns: seq<nat>)
    ensures forall k :: 0 <= k < |ns| ==> '.' !in NatToString(ns[k])
  {
    forall k | 0 <= k < |ns| ensures '.' !in NatToString(ns[k]) {
      var s := NatToString(ns[k]);
      assert forall j :: 0 <= j < |s| ==> s[j] != '.';
    }
  }

  function Spelled(ns: seq<nat>): (r: seq<string>)
    ensures |r| == |ns| && forall k :: 0 <= k < |ns| ==> r[k] == NatToString(ns[k])
  {
    seq(|ns|, k requires 0 <= k < |ns| => NatToString(ns[k]))
  }

  /** Each value, as int() returns it on success. */
  function Somes(values: seq<int>): (r: seq<Option<int>>)
    ensures |r| == |values| && forall k :: 0 <= k < |values| ==> r[k] == Some(values[k])
  {
    seq(|values|, k requires 0 <= k < |values| => Some(values[k]))
  }

  /** Naturals as integers. */
  function Ints(ns: seq<nat>): (r: seq<int>)
    ensures |r| == |ns| && forall k :: 0 <= k < |ns| ==> r[k] == ns[k] as int
  {
    seq(|ns|, k requires 0 <= k < |ns| => ns[k] as int)
  }

  /** Parts that all parse, at most four and each below 65536, encode to themselves padded with zeros. */
  lemma PartsOfValues(values: seq<int>)
    requires |values| <= 4
    requires forall k :: 0 <= k < |values| ==> 0 <= values[k] < PartModulus as int
    ensures PartsFrom(Somes(values), 0)
         == Some(values + seq(4 - |values|, _ => 0))
  {
    var parsed := Somes(values);
    var r := PartsFrom(parsed, 0);
    assert forall k :: 0 <= k < 4 ==> Field(parsed, k).Some?;
    assert r.value == values + seq(4 - |values|, _ => 0);
  }

  /** int() reads back each spelled number. */
  lemma ParsedSpelled(ns: seq<nat>)
    ensures Parsed(Spelled(ns)) == Somes(Ints(ns))
  {
    forall k | 0 <= k < |ns| ensures ParseInt(Spelled(ns)[k]) == Some(ns[k] as int) {
      ParseIntNat(ns[k]);
    }
  }

  /** Splitting the dotted spelling on "." gives the spelled numbers back. */
  lemma SplitSpelled(ns: seq<nat>)
    requires |ns| >= 1
    ensures SplitOn(EffectiveVersion(Join(Spelled(ns), ".")), '.') == Spelled(ns)
  {
    var fields := Spelled(ns);
    NoDotInNumbers(ns);
    SplitJoin(fields, '.');
  }

  /**
   * A version of one to four 16-bit numbers encodes to those numbers, padded with zeros:
   * "1.2.3" gives [1, 2, 3, 0].
   */
  lemma EncodeDotted(ns: seq<nat>)
    requires 1 <= |ns| <= 4
    requires forall k :: 0 <= k < |ns| ==> ns[k] < PartModulus
    ensures VersionParts(Join(Spelled(ns), ".")) == Some(ns + seq(4 - |ns|, _ => 0))
  {
    DottedParsed(ns);
    PartsOfNats(ns);
  }

  /** PartsOfValues, for naturals. */
  lemma PartsOfNats(ns: seq<nat>)
    requires |ns| <= 4
    requires forall k :: 0 <= k < |ns| ==> ns[k] < PartModulus
    ensures PartsFrom(Somes(Ints(ns)), 0) == Some(ns + seq(4 - |ns|, _ => 0))
  {
    var values := Ints(ns);
    PartsOfValues(values);
    assert values + seq(4 - |values|, _ => 0) == ns + seq(4 - |ns|, _ => 0);
  }

  /** The dotted spelling of some numbers is read back, field by field, as those numbers. */
  lemma DottedParsed(ns: seq<nat>)
    requires |ns| >= 1
    ensures VersionParts(Join(Spelled(ns), "."))
         == PartsFrom(Somes(Ints(ns)), 0)
  {
    SplitSpelled(ns);
    ParsedSpelled(ns);
  }

  /** An empty version number is stamped as 0.0.0.0. */
  lemma EmptyVersionParts()
    ensures VersionParts("") == Some([0, 0, 0, 0])
  {
    ZerosSpelled();
    ZerosEncode();
    assert VersionParts("") == VersionParts(Join(Spelled([0, 0, 0]), "."));
  }

  lemma ZerosEncode()
    ensures VersionParts(Join(Spelled([0, 0, 0]), ".")) == Some([0, 0, 0, 0])
  {
    var ns: seq<nat> := seq(3, _ => 0);
    assert ns == [0, 0, 0];
    EncodeDotted(ns);
    assert ns + seq(1, _ => 0) == [0, 0, 0, 0];
  }

  lemma ZerosSpelled()
    ensures Join(Spelled([0, 0, 0]), ".") == "0.0.0"
  {
    var zero := NatToString(0);
    assert zero == "0";
    assert Spelled([0, 0, 0]) == [zero, zero, zero];
    assert Join([zero], ".") == "0";
    assert Join([zero, zero], ".") == "0" + "." + Join([zero], ".") by {
      assert [zero, zero][1..] == [zero];
    }
    assert Join([zero, zero, zero], ".") == "0" + "." + Join([zero, zero], ".") by {
      assert [zero, zero, zero][1..] == [zero, zero];
    }
  }

  /** Only the first four parts count: anything may follow them. */
  lemma ExtraPartsIgnored(parsed: seq<Option<int>>, extra: seq<Option<int>>)
    requires |parsed| >= 4
    ensures PartsFrom(parsed + extra, 0) == PartsFrom(parsed, 0)
  {
    var a, b := PartsFrom(parsed + extra, 0), PartsFrom(parsed, 0);
    assert forall k :: 0 <= k < 4 ==> Field(parsed + extra, k) == Field(parsed, k);
    if a.Some? {
      assert a.value == b.value;
    }
  }

  /** A part that int() rejects makes the encoding fail. */
  lemma BadPartFails(version: string, k: nat)
    requires k < 4 && k < |SplitOn(EffectiveVersion(version), '.')|
    requires ParseInt(SplitOn(EffectiveVersion(version), '.')[k]).None?
    ensures VersionParts(version).None?
  {
    assert Field(Parsed(SplitOn(EffectiveVersion(version), '.')), k).None?;
  }

  /**
   * version.txt written by the build script (write_text turns "\n" into "\r\n") and read back by
   * the About dialog (read_text turns it back) gives the version string for that version and commit.
   */
  lemma VersionFileRoundTrip(version: string, commit: Option<string>)
    requires '\n' !in version && '\r' !in version
    requires commit.Some? ==> '\n' !in commit.value && '\r' !in commit.value
    ensures var c := if commit.Some? then commit.value else "";
      VersionString(UniversalNewlines(WindowsNewlines(VersionFileText(version, commit))))
      == Some(if c != "" then "Version " + version + " (Build " + c + ")"
              else if version != "" then "Version " + version
              else "")
  {
    var c := if commit.Some? then commit.value else "";
    var text := VersionFileText(version, commit);
    assert text == Join([version, c], "\n");
    assert '\r' !in text by {
      forall j | 0 <= j < |text| ensures text[j] != '\r' {
        if j < |version| { assert text[j] == version[j]; }
        else if j > |version| { assert text[j] == c[j - |version| - 1]; }
      }
    }
    NewlinesRoundTrip(text);
    SplitJoin([version, c], '\n');
  }
}
