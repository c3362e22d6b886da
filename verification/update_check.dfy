/**
 IsNewVersionAvailable: read the tag of the latest release from the reply of
 the release API and decide whether it is newer than the running version.
 The download itself is an input: either it threw, or it returned a body.
 */
module UpdateCheck {
  import opened Options
  import Strings
  import SystemVersion
  import PluginInfo

  /** The literal that opens the tag in the reply; the regex is "tag_name":"([^"]*)?". */
  const TagKey: string := "\"tag_name\":\""

  /** What newestVersion is set to when the download throws. */
  const UnknownVersion: string := "Unknown"

  /** Outcome of WebClient.DownloadString. */
  datatype Download = Threw | Replied(body: string)

  /** The cached newestVersion string and the returned "update available" flag. */
  datatype UpdateStatus = UpdateStatus(newestVersion: string, updateAvailable: bool)

  // ---------------------------------------------------------------- tag extraction

  /**
   The pattern "tag_name":"([^"]*)?" matches `s` at `i` with group value `v`:
   the key at `i`, then `v` free of quotes, then a closing quote.
   */
  ghost predicate MatchesAt(s: string, i: int, v: string)
  {
    var start := i + |TagKey|;
    && Strings.OccursAt(s, TagKey, i)
    && start + |v| < |s|
    && s[start..start + |v|] == v
    && '"' !in v
    && s[start + |v|] == '"'
  }

  /** `v` is the group of the leftmost match, the one Regex.Match reports. */
  ghost predicate LeftmostMatch(s: string, i: int, v: string)
  {
    MatchesAt(s, i, v) && forall j, w :: j < i ==> !MatchesAt(s, j, w)
  }

  /** At a given position the group value is determined: it runs up to the first quote. */
  lemma MatchIsDeterministic(s: string, i: int, v: string, w: string)
    requires MatchesAt(s, i, v) && MatchesAt(s, i, w)
    ensures v == w
  {
  }

  /**
   Regex.Match(reply).Groups[1].Value: the group of the leftmost match,
   or "" when the pattern does not match anywhere.
   */
  function ExtractTag(reply: string): (tag: string)
    ensures (exists i :: LeftmostMatch(reply, i, tag))
         || (tag == "" && forall i, w :: !MatchesAt(reply, i, w))
  {
    var quote := ['"'];
    match Strings.IndexOf(reply, TagKey, 0)
    case None => ""
    case Some(i) =>
      var start := i + |TagKey|;
      match Strings.IndexOf(reply, quote, start)
      case None =>
        assert forall j, w :: !MatchesAt(reply, j, w) by {
          forall j, w | MatchesAt(reply, j, w) ensures false {
            Strings.OccursAtChar(reply, '"', j + |TagKey| + |w|);
          }
        }
        ""
      case Some(k) =>
        var tag := reply[start..k];
        forall m | 0 <= m < |tag| ensures tag[m] != '"' {
          Strings.OccursAtChar(reply, '"', start + m);
        }
        Strings.OccursAtChar(reply, '"', k);
        assert MatchesAt(reply, i, tag);
        assert LeftmostMatch(reply, i, tag);
        tag
  }

  // ---------------------------------------------------------------- the decision

  /**
   The comparison after the download: numeric when the newest version parses
   (false if the current one does not), otherwise literal string inequality.
   */
  function IsNewer(newest: string, current: string): (available: bool)
    ensures SystemVersion.TryParse(newest).Some? && SystemVersion.TryParse(current).Some? ==>
      (available <==> SystemVersion.Precedes(SystemVersion.TryParse(current).value, SystemVersion.TryParse(newest).value))
    ensures SystemVersion.TryParse(newest).Some? && SystemVersion.TryParse(current).None? ==> !available
    ensures SystemVersion.TryParse(newest).None? ==> (available <==> newest != current)
  {
    match SystemVersion.TryParse(newest)
    case Some(newVersion) =>
      (match SystemVersion.TryParse(current)
       case Some(currentVersion) => SystemVersion.Less(currentVersion, newVersion)
       case None => false)
    case None => newest != current
  }

  /** IsNewVersionAvailable against the running NumericVersion. */
  function IsNewVersionAvailable(download: Download): (r: UpdateStatus)
    ensures download.Threw? ==> r.newestVersion == UnknownVersion
    ensures download.Replied? ==> (exists i :: LeftmostMatch(download.body, i, r.newestVersion))
                                  || (r.newestVersion == "" && forall i, w :: !MatchesAt(download.body, i, w))
    ensures SystemVersion.TryParse(r.newestVersion).Some? ==>
      (r.updateAvailable <==> SystemVersion.Precedes(PluginInfo.CurrentVersion, SystemVersion.TryParse(r.newestVersion).value))
    ensures SystemVersion.TryParse(r.newestVersion).None? ==>
      (r.updateAvailable <==> r.newestVersion != PluginInfo.NumericVersion)
  {
    var newest := match download
      case Threw => UnknownVersion
      case Replied(body) => ExtractTag(body);
    PluginInfo.CurrentVersionParses();
    UpdateStatus(newest, IsNewer(newest, PluginInfo.NumericVersion))
  }

  // ---------------------------------------------------------------- consequences

  /** A tag that names the running version, in any spelling that parses to it, is not an update. */
  lemma SameVersionIsNotAnUpdate(download: Download)
    ensures var r := IsNewVersionAvailable(download);
      SystemVersion.TryParse(r.newestVersion) == Some(PluginInfo.CurrentVersion) ==> !r.updateAvailable
  {
  }

  /** A failed download leaves "Unknown", which does not parse and differs from the running version: true. */
  lemma FailedDownloadReportsUpdate()
    ensures IsNewVersionAvailable(Threw) == UpdateStatus(UnknownVersion, true)
  {
    SystemVersion.NoDotDoesNotParse(UnknownVersion);
  }

  /** A reply without a matching tag yields "", which does not parse: true. */
  lemma MissingTagReportsUpdate(body: string)
    requires forall i, w :: !MatchesAt(body, i, w)
    ensures IsNewVersionAvailable(Replied(body)) == UpdateStatus("", true)
  {
    SystemVersion.NoDotDoesNotParse("");
  }

  /** Conversely, the leftmost match fixes what ExtractTag returns. */
  lemma ExtractTagIsLeftmostMatch(s: string, i: int, v: string)
    requires LeftmostMatch(s, i, v)
    ensures ExtractTag(s) == v
  {
    var tag := ExtractTag(s);
    var i' :| LeftmostMatch(s, i', tag);
    assert i' == i;
    MatchIsDeterministic(s, i, tag, v);
  }

  /** The tag is read from the first "tag_name" entry and stops at the next quote. */
  lemma ExtractFirstTag()
    ensures ExtractTag("{" + TagKey + "0.9.9.17\"," + TagKey + "9.9\"}") == "0.9.9.17"
  {
    var tail := "\"," + TagKey + "9.9\"}";
    var s := "{" + TagKey + "0.9.9.17" + tail;
    assert "{" + TagKey + "0.9.9.17\"," + TagKey + "9.9\"}" == s;
    assert s[1..13] == TagKey;
    assert s[13..21] == "0.9.9.17";
    assert s[21] == '"';
    assert MatchesAt(s, 1, "0.9.9.17");
    forall j, w | j < 1 ensures !MatchesAt(s, j, w) {
      if j == 0 {
        assert s[0] != TagKey[0];
      }
    }
    ExtractTagIsLeftmostMatch(s, 1, "0.9.9.17");
  }

  /** Remote 1.2.0 is newer than local 1.1.9. */
  lemma NewerReleaseExample()
    ensures IsNewer("1.2.0", "1.1.9")
  {
    ParsesAs("1.2.0", SystemVersion.Version(1, 2, Some(0), None));
    ParsesAs("1.1.9", SystemVersion.Version(1, 1, Some(9), None));
  }

  /** A release equal to the local version is not newer. */
  lemma SameReleaseExample()
    ensures !IsNewer("1.1.9", "1.1.9")
  {
    ParsesAs("1.1.9", SystemVersion.Version(1, 1, Some(9), None));
  }

  /** 0.9.9 has no Revision, so it sorts below 0.9.9.16. */
  lemma AbsentRevisionExample()
    ensures !IsNewer("0.9.9", PluginInfo.NumericVersion)
  {
    ParsesAs("0.9.9", SystemVersion.Version(0, 9, Some(9), None));
    PluginInfo.CurrentVersionParses();
  }

  /** Components compare numerically, not as text: 0.9.10 is newer than 0.9.9.16. */
  lemma NumericComponentExample()
    ensures IsNewer("0.9.10", PluginInfo.NumericVersion)
  {
    assert SystemVersion.NatToDigits(10) == "10";
    ParsesAs("0.9.10", SystemVersion.Version(0, 9, Some(10), None));
    PluginInfo.CurrentVersionParses();
  }

  /** A string that is the printed form of a representable version parses to it. */
  lemma ParsesAs(s: string, v: SystemVersion.Version)
    requires SystemVersion.Valid(v) && SystemVersion.Format(v) == s
    ensures SystemVersion.TryParse(s) == Some(v)
  {
    SystemVersion.FormatThenParse(v);
  }

  /** An unparseable tag falls back to literal inequality. */
  lemma LiteralFallbackExamples()
    ensures IsNewer("abc", "1.1.9")
    ensures !IsNewer("abc", "abc")
  {
    SystemVersion.NoDotDoesNotParse("abc");
  }
}
