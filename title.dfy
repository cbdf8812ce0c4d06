/** The page title used as the base of the saved file's name: the trimmed
    text of the first `<h1>`, stripped of the characters file systems
    refuse and capped at 100 characters, or "page" when there is no usable
    heading. */
module PageTitle {
  import opened Wrappers
  import opened Strings

  const DefaultTitle := "page"
  const MaxTitleLength := 100

  /** The characters removed from a title: `/ \ : * ? " < > |`. */
  predicate IsUnsafe(c: char) {
    c == '/' || c == '\\' || c == ':' || c == '*' || c == '?'
    || c == '"' || c == '<' || c == '>' || c == '|'
  }

  predicate NoUnsafe(s: string) {
    forall k :: 0 <= k < |s| ==> !IsUnsafe(s[k])
  }

  /** Deletes every unsafe character and keeps the others in order. */
  function RemoveUnsafe(s: string): (r: string)
    ensures NoUnsafe(r)
    ensures |r| <= |s|
  {
    if s == [] then []
    else if IsUnsafe(s[0]) then RemoveUnsafe(s[1..])
    else [s[0]] + RemoveUnsafe(s[1..])
  }

  /** The title of a page whose first heading has the given text content
      (`None` when the page has no `<h1>`). */
  function Title(heading: Option<string>): (r: string)
    ensures NoUnsafe(r)
    ensures |r| <= MaxTitleLength
  {
    match heading
    case None => DefaultTitle
    case Some(text) =>
      var t := Trim(text);
      if t == [] then DefaultTitle
      else
        var f := RemoveUnsafe(t);
        if |f| <= MaxTitleLength then f else f[..MaxTitleLength]
  }

  /** Removing unsafe characters only removes them: every other character
      occurs as often in the result as in the input, unsafe ones not at all. */
  lemma {:induction false} RemoveUnsafeCounts(s: string, c: char)
    ensures multiset(RemoveUnsafe(s))[c] == if IsUnsafe(c) then 0 else multiset(s)[c]
  {
    if s != [] {
      RemoveUnsafeCounts(s[1..], c);
      assert s == [s[0]] + s[1..];
    }
  }

  /** Text that has no unsafe character passes through unchanged. */
  lemma {:induction false} RemoveUnsafeKeepsSafe(s: string)
    requires NoUnsafe(s)
    ensures RemoveUnsafe(s) == s
  {
    if s != [] {
      RemoveUnsafeKeepsSafe(s[1..]);
      assert s == [s[0]] + s[1..];
    }
  }

  /** Removal works piece by piece, so the order of what is kept is the
      order of the input. */
  lemma {:induction false} RemoveUnsafeAppend(a: string, b: string)
    ensures RemoveUnsafe(a + b) == RemoveUnsafe(a) + RemoveUnsafe(b)
  {
    if a != [] {
      assert (a + b)[1..] == a[1..] + b;
      RemoveUnsafeAppend(a[1..], b);
    } else {
      assert a + b == b;
    }
  }

  /** Without a heading, or with a heading of only whitespace, the title is
      "page". */
  lemma TitleDefault(heading: Option<string>)
    requires heading.None? || AllWhitespace(heading.value)
    ensures Title(heading) == "page"
  {
    if heading.Some? {
      TrimBlank(heading.value);
    }
  }

  /** With a heading that is not blank, the title is the first
      min(100, n) characters of the trimmed heading with the unsafe
      characters removed, n being the length of the latter. */
  lemma TitleFromHeading(text: string)
    requires !AllWhitespace(text)
    ensures var f := RemoveUnsafe(Trim(text));
      var r := Title(Some(text));
      |r| == (if |f| < MaxTitleLength then |f| else MaxTitleLength) && r <= f
  {
    TrimBlank(text);
  }

  /** A heading that is already a usable title, once trimmed, is the title. */
  lemma TitleKeepsPlainHeading(text: string)
    requires Trim(text) != [] && NoUnsafe(Trim(text)) && |Trim(text)| <= MaxTitleLength
    ensures Title(Some(text)) == Trim(text)
  {
    RemoveUnsafeKeepsSafe(Trim(text));
  }

  /** The title can be empty: a heading made only of unsafe characters is
      not blank, so "page" is not used, and nothing of it survives. */
  lemma TitleMayBeEmpty()
    ensures Title(Some("???")) == ""
  {
    assert "???"[1..] == "??" && "??"[1..] == "?" && "?"[1..] == "";
    assert Trim("???") == "???" by { TrimIsCore("???", 0, 3); }
  }

  /** The title can end in whitespace: trimming happens before the unsafe
      characters are removed. */
  lemma TitleMayEndInSpace()
    ensures Title(Some("a ?")) == "a "
  {
    assert "a ?"[1..] == " ?" && " ?"[1..] == "?" && "?"[1..] == "";
    assert Trim("a ?") == "a ?" by { TrimIsCore("a ?", 0, 3); }
  }
}
