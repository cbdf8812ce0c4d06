/** The name under which a capture is downloaded:
    `<title>_<YYYY-MM-DD-HH-MM-SS>.html`, the time stamp being the first 19
    characters of an ISO 8601 time with every `:` and `T` turned into `-`. */
module FileName {
  import opened Wrappers
  import opened Strings
  import opened PageTitle

  const StampLength := 19
  const Extension := ".html"

  /** `replace(/[:T]/g, "-")`. */
  function DashColonsAndT(s: string): (r: string)
    ensures |r| == |s|
    ensures forall k :: 0 <= k < |s| ==>
      r[k] == (if s[k] == ':' || s[k] == 'T' then '-' else s[k])
  {
    if s == [] then []
    else [if s[0] == ':' || s[0] == 'T' then '-' else s[0]] + DashColonsAndT(s[1..])
  }

  /** `iso.slice(0, 19).replace(/[:T]/g, "-")`. */
  function DateStamp(iso: string): (r: string)
    ensures |r| == if |iso| < StampLength then |iso| else StampLength
    ensures forall k :: 0 <= k < |r| ==> r[k] != ':' && r[k] != 'T'
  {
    DashColonsAndT(if |iso| < StampLength then iso else iso[..StampLength])
  }

  /** `${title}_${dateStr}.html` */
  function FileName(title: string, iso: string): (r: string)
    ensures |r| > |title| + |Extension|
    ensures r[..|title|] == title && r[|r| - |Extension|..] == Extension
  {
    title + "_" + DateStamp(iso) + Extension
  }

  /** Positions of the separators in `YYYY-MM-DDTHH:MM:SS`. */
  predicate IsSeparatorPosition(k: int) {
    k == 4 || k == 7 || k == 10 || k == 13 || k == 16
  }

  /** What `Date.prototype.toISOString` returns for a year 0000-9999:
      `YYYY-MM-DDTHH:MM:SS.sssZ`. */
  predicate IsIsoTimestamp(s: string) {
    |s| == 24
    && (forall k :: 0 <= k < StampLength && !IsSeparatorPosition(k) ==> IsDigit(s[k]))
    && s[4] == '-' && s[7] == '-' && s[10] == 'T' && s[13] == ':' && s[16] == ':'
    && s[19] == '.' && IsDigit(s[20]) && IsDigit(s[21]) && IsDigit(s[22]) && s[23] == 'Z'
  }

  /** `YYYY-MM-DD-HH-MM-SS`. */
  predicate IsDateStamp(s: string) {
    |s| == StampLength
    && forall k :: 0 <= k < StampLength ==>
      if IsSeparatorPosition(k) then s[k] == '-' else IsDigit(s[k])
  }

  /** The file name pattern `^[^/\\:*?"<>|]*_\d{4}-\d{2}-\d{2}-\d{2}-\d{2}-\d{2}\.html$`,
      read from the right: the last 25 characters are fixed in shape. */
  predicate MatchesFileNamePattern(f: string) {
    |f| >= 1 + StampLength + |Extension|
    && NoUnsafe(f[..|f| - 25])
    && f[|f| - 25] == '_'
    && IsDateStamp(f[|f| - 24..|f| - 5])
    && f[|f| - 5..] == Extension
  }

  /** A well-formed ISO time yields a stamp of the form YYYY-MM-DD-HH-MM-SS
      that keeps every digit of the date and time of day. */
  lemma DateStampOfIso(iso: string)
    requires IsIsoTimestamp(iso)
    ensures IsDateStamp(DateStamp(iso))
    ensures forall k :: 0 <= k < StampLength && !IsSeparatorPosition(k) ==> DateStamp(iso)[k] == iso[k]
  {
    var r := DateStamp(iso);
    forall k | 0 <= k < StampLength
      ensures if IsSeparatorPosition(k) then r[k] == '-' else IsDigit(r[k]) && r[k] == iso[k]
    {
      assert iso[..StampLength][k] == iso[k];
    }
  }

  /** A title free of unsafe characters and a well-formed ISO time give a
      name that matches the file name pattern. */
  lemma {:induction false} FileNameOfSafeTitle(title: string, iso: string)
    requires NoUnsafe(title) && IsIsoTimestamp(iso)
    ensures MatchesFileNamePattern(FileName(title, iso))
  {
    var stamp := DateStamp(iso);
    var head, tail := title + "_", stamp + Extension;
    var f := FileName(title, iso);
    DateStampOfIso(iso);
    assert f == head + tail;
    assert |f| - 24 == |head|;
    SliceAfterPrefix(head, tail, 0, StampLength);
    assert tail[0..StampLength] == stamp;
    assert f[..|f| - 25] == title;
  }

  /** Every file name built from a page title and a well-formed ISO time
      matches the file name pattern. */
  lemma FileNameMatchesPattern(heading: Option<string>, iso: string)
    requires IsIsoTimestamp(iso)
    ensures MatchesFileNamePattern(FileName(Title(heading), iso))
  {
    FileNameOfSafeTitle(Title(heading), iso);
  }

  /** Different captures get different names: the title and the stamp can
      be read back from a name built from a well-formed ISO time. */
  lemma FileNameInjective(t1: string, iso1: string, t2: string, iso2: string)
    requires IsIsoTimestamp(iso1) && IsIsoTimestamp(iso2)
    requires FileName(t1, iso1) == FileName(t2, iso2)
    ensures t1 == t2 && DateStamp(iso1) == DateStamp(iso2)
  {
    var f := FileName(t1, iso1);
    assert |t1| == |t2|;
    assert f[..|t1|] == t1;
    assert f[|t1| + 1..|t1| + 1 + StampLength] == DateStamp(iso1);
    assert FileName(t2, iso2)[|t2| + 1..|t2| + 1 + StampLength] == DateStamp(iso2);
  }
}
