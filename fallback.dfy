/** The payload of the fallback capture: the raw markup of the page,
    preceded by a comment naming where and when it was saved and, when the
    page refers to external resources, a comment warning that they were not
    included and naming the first three of them. */
module Fallback {
  import opened Strings

  /** One entry of the inventory of `<img>`, stylesheet `<link>` and
      `<script src>` elements: the element's URL and its tag name. */
  datatype Resource = Resource(url: string, tag: string)

  const WarningOpen := "\n<!-- WARNING: "
  const CountSuffix := " external resources not included ("
  const ListClose := "... -->"
  const ListSeparator := ", "
  const MaxListed := 3

  function Urls(rs: seq<Resource>): (us: seq<string>)
    ensures |us| == |rs| && forall i :: 0 <= i < |rs| ==> us[i] == rs[i].url
  {
    seq(|rs|, i requires 0 <= i < |rs| => rs[i].url)
  }

  /** `resources.slice(0, 3).map((r) => r.url)` */
  function ListedUrls(rs: seq<Resource>): seq<string> {
    Urls(if |rs| < MaxListed then rs else rs[..MaxListed])
  }

  /** Where the list of URLs starts inside a non-empty warning. */
  function ListStart(n: nat): nat {
    |WarningOpen| + |DecimalString(n)| + |CountSuffix|
  }

  /** The part of the warning before the list of URLs. */
  function WarningHead(n: nat): string {
    WarningOpen + DecimalString(n) + CountSuffix
  }

  /** The list of URLs and the end of the comment. */
  function WarningList(rs: seq<Resource>): string {
    Join(ListedUrls(rs), ListSeparator) + ListClose
  }

  /** The warning comment; empty when no external resource was found. */
  function Warning(rs: seq<Resource>): string {
    if |rs| > 0 then WarningHead(|rs|) + WarningList(rs) else ""
  }

  /** `<!-- Saved from ${url} at ${timestamp} -->` */
  function SavedFrom(url: string, timestamp: string): string {
    "<!-- Saved from " + url + " at " + timestamp + " -->"
  }

  /** The fallback payload: the saved-from comment, the warning, a line
      break, then the page's markup unchanged at the end. */
  function Payload(url: string, timestamp: string, rs: seq<Resource>, html: string): (p: string)
    ensures |p| == |SavedFrom(url, timestamp)| + |Warning(rs)| + 1 + |html|
    ensures p[..|SavedFrom(url, timestamp)|] == SavedFrom(url, timestamp)
    ensures p[|p| - |html| - 1] == '\n' && p[|p| - |html|..] == html
  {
    SavedFrom(url, timestamp) + Warning(rs) + "\n" + html
  }

  /** There is a warning exactly when there are resources. */
  lemma WarningEmptyIff(rs: seq<Resource>)
    ensures Warning(rs) == "" <==> |rs| == 0
  {
  }

  /** A warning states the number of resources: right after its opening
      comes a run of digits that reads back as that number, ended by the
      text that follows the count. */
  lemma {:induction false} WarningStatesCount(rs: seq<Resource>)
    requires |rs| > 0
    ensures var w, d := Warning(rs), |DecimalString(|rs|)|;
      |w| >= ListStart(|rs|)
      && w[..|WarningOpen|] == WarningOpen
      && AllDigits(w[|WarningOpen|..|WarningOpen| + d])
      && ParseDecimal(w[|WarningOpen|..|WarningOpen| + d]) == |rs|
      && w[|WarningOpen| + d..ListStart(|rs|)] == CountSuffix
  {
    var digits := DecimalString(|rs|);
    var head := WarningHead(|rs|);
    var w := Warning(rs);
    assert |head| == ListStart(|rs|);
    ThreeParts(WarningOpen, digits, CountSuffix);
    ThreeParts(head, WarningList(rs), "");
    assert w[..|head|] == head;
    assert w[..|WarningOpen|] == head[..|WarningOpen|];
    assert w[|WarningOpen|..|WarningOpen| + |digits|] == head[|WarningOpen|..|WarningOpen| + |digits|];
    assert w[|WarningOpen| + |digits|..|head|] == head[|WarningOpen| + |digits|..];
    DecimalRoundTrip(|rs|);
  }

  /** A warning names the first min(3, n) resources by URL, in order: the
      i-th URL stands at its place in the comma-separated list, which is
      closed by "... -->" at the end of the warning. */
  lemma {:induction false} WarningListsUrl(rs: seq<Resource>, i: nat)
    requires i < |rs| && i < MaxListed
    ensures var w, us, s := Warning(rs), ListedUrls(rs), ListStart(|rs|);
      i < |us| && us[i] == rs[i].url
      && Offset(us, ListSeparator, i) + |us[i]| <= |Join(us, ListSeparator)|
      && |w| == s + |Join(us, ListSeparator)| + |ListClose|
      && w[|w| - |ListClose|..] == ListClose
      && w[s + Offset(us, ListSeparator, i)..s + Offset(us, ListSeparator, i) + |rs[i].url|] == rs[i].url
  {
    var us := ListedUrls(rs);
    assert |WarningHead(|rs|)| == ListStart(|rs|);
    AppendAssoc(WarningHead(|rs|), Join(us, ListSeparator), ListClose);
    JoinedBetween(WarningHead(|rs|), us, ListSeparator, ListClose, i);
  }

  /** Generic form of the above: inside `head + Join(us, sep) + tail` the
      i-th element sits at `|head|` plus its offset in the join. */
  lemma {:induction false} JoinedBetween(head: string, us: seq<string>, sep: string, tail: string, i: nat)
    requires i < |us|
    ensures var list, o := Join(us, sep), Offset(us, sep, i);
      o + |us[i]| <= |list|
      && (head + list + tail)[|head| + |list|..] == tail
      && (head + list + tail)[|head| + o..|head| + o + |us[i]|] == us[i]
  {
    var list, o := Join(us, sep), Offset(us, sep, i);
    JoinAt(us, sep, i);
    ThreeParts(head, list, tail);
    SliceAfterPrefix(head, list + tail, o, o + |us[i]|);
    assert head + list + tail == head + (list + tail);
    assert (list + tail)[o..o + |us[i]|] == list[o..o + |us[i]|];
  }

  /** Only the first three URLs and the count matter: resources beyond the
      third, and the tags of all of them, do not change the warning. */
  lemma WarningIgnoresRest(rs: seq<Resource>, qs: seq<Resource>)
    requires |rs| == |qs|
    requires forall i :: 0 <= i < |rs| && i < MaxListed ==> rs[i].url == qs[i].url
    ensures Warning(rs) == Warning(qs)
  {
    assert ListedUrls(rs) == ListedUrls(qs);
  }

  /** Five resources: the warning states 5 and names exactly the first three. */
  lemma WarningForFive(a: string, b: string, c: string, d: string, e: string)
    ensures Warning([Resource(a, "IMG"), Resource(b, "IMG"), Resource(c, "LINK"),
                     Resource(d, "SCRIPT"), Resource(e, "IMG")])
         == WarningOpen + "5" + CountSuffix + (a + ", " + b + ", " + c) + ListClose
  {
    var rs := [Resource(a, "IMG"), Resource(b, "IMG"), Resource(c, "LINK"),
               Resource(d, "SCRIPT"), Resource(e, "IMG")];
    assert ListedUrls(rs) == [a, b, c];
    JoinThree(a, b, c, ListSeparator);
    assert DecimalString(5) == "5";
    AppendAssoc(WarningHead(5), Join([a, b, c], ListSeparator), ListClose);
  }

  /** The payload is made of the saved-from comment, the warning and the
      markup, in this order; with no resources there is no warning. */
  lemma PayloadLayout(url: string, timestamp: string, rs: seq<Resource>, html: string)
    ensures var p, h := Payload(url, timestamp, rs, html), |SavedFrom(url, timestamp)|;
      p[h..|p| - |html| - 1] == Warning(rs)
      && (|rs| == 0 ==> p == SavedFrom(url, timestamp) + "\n" + html)
  {
    var h, w := SavedFrom(url, timestamp), Warning(rs);
    SecondOfFour(h, w, "\n", html);
    if |rs| == 0 {
      assert h + w == h;
    }
  }
}
