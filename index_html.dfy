/** The lines `generate_html` writes to `index.html`: a fixed ten-line
    header, one paragraph per processed name with the name passed through
    `html.escape`, and a two-line footer. */
module IndexHtml {

  /** `html.escape` on one character (with `quote=True`). */
  function EscapeChar(c: char): string
  {
    if c == '&' then "&amp;"
    else if c == '<' then "&lt;"
    else if c == '>' then "&gt;"
    else if c == '"' then "&quot;"
    else if c == '\'' then "&#x27;"
    else [c]
  }

  /** No character HTML gives a meaning to, other than `&`. */
  predicate IsRaw(c: char)
  {
    c == '<' || c == '>' || c == '"' || c == '\''
  }

  /** `html.escape(s)`. Replacing `&` first and the other four afterwards,
      as the library does, is the same as escaping character by character. */
  function Escape(s: string): (r: string)
    ensures forall i :: 0 <= i < |r| ==> !IsRaw(r[i])
    decreases |s|
  {
    if s == [] then [] else EscapeChar(s[0]) + Escape(s[1..])
  }

  /** Reads the five entities `html.escape` produces back into characters. */
  function Unescape(s: string): string
    decreases |s|
  {
    if s == [] then []
    else if |s| >= 5 && s[..5] == "&amp;" then "&" + Unescape(s[5..])
    else if |s| >= 4 && s[..4] == "&lt;" then "<" + Unescape(s[4..])
    else if |s| >= 4 && s[..4] == "&gt;" then ">" + Unescape(s[4..])
    else if |s| >= 6 && s[..6] == "&quot;" then "\"" + Unescape(s[6..])
    else if |s| >= 6 && s[..6] == "&#x27;" then "'" + Unescape(s[6..])
    else [s[0]] + Unescape(s[1..])
  }

  lemma UnescapeEscapeChar(c: char, rest: string)
    ensures Unescape(EscapeChar(c) + rest) == [c] + Unescape(rest)
  {
    var s := EscapeChar(c) + rest;
    if c == '&' {
      assert s[..5] == "&amp;" && s[5..] == rest;
    } else if c == '<' {
      assert s[..4] == "&lt;" && s[4..] == rest;
      assert |s| >= 5 ==> s[..5] != "&amp;" by { assert s[1] == 'l'; }
    } else if c == '>' {
      assert s[..4] == "&gt;" && s[4..] == rest;
      assert |s| >= 5 ==> s[..5] != "&amp;" by { assert s[1] == 'g'; }
      assert s[..4] != "&lt;" by { assert s[1] == 'g'; }
    } else if c == '"' {
      assert s[..6] == "&quot;" && s[6..] == rest;
      assert |s| >= 5 ==> s[..5] != "&amp;" by { assert s[1] == 'q'; }
      assert s[..4] != "&lt;" && s[..4] != "&gt;" by { assert s[1] == 'q'; }
    } else if c == '\'' {
      assert s[..6] == "&#x27;" && s[6..] == rest;
      assert |s| >= 5 ==> s[..5] != "&amp;" by { assert s[1] == '#'; }
      assert s[..4] != "&lt;" && s[..4] != "&gt;" by { assert s[1] == '#'; }
      assert s[..6] != "&quot;" by { assert s[1] == '#'; }
    } else {
      assert s[0] == c && s[1..] == rest;
      assert |s| >= 4 ==> s[..4][0] == c;
      assert |s| >= 5 ==> s[..5][0] == c;
      assert |s| >= 6 ==> s[..6][0] == c;
    }
  }

  /** Escaping loses nothing: the name can be read back from the page. */
  lemma {:induction false} UnescapeEscape(s: string)
    ensures Unescape(Escape(s)) == s
    decreases |s|
  {
    if s != [] {
      UnescapeEscapeChar(s[0], Escape(s[1..]));
      UnescapeEscape(s[1..]);
      assert [s[0]] + s[1..] == s;
    }
  }

  /** The fixed head of the page, up to the heading. */
  const Header: seq<string> := [
    "<!doctype html>",
    "<html lang=\"it\">",
    "<head>",
    "  <meta charset=\"utf-8\">",
    "  <meta name=\"viewport\" content=\"width=device-width, initial-scale=1\">",
    "  <title>Elenco file</title>",
    "  <style>body{font-family:system-ui,-apple-system,Segoe UI,Roboto,Ubuntu,Cantarell,Noto Sans,sans-serif;margin:2rem;} p{margin:.25rem 0}</style>",
    "</head>",
    "<body>",
    "  <h1>Elenco file</h1>"
  ]

  const Footer: seq<string> := ["</body>", "</html>"]

  const ParagraphOpen: string := "  <p>"
  const ParagraphClose: string := "</p>"

  /** `f"  <p>{html.escape(name)}</p>"` */
  function Paragraph(name: string): string
  {
    ParagraphOpen + Escape(name) + ParagraphClose
  }

  /** The `lines` list of `generate_html`. */
  function IndexLines(names: seq<string>): seq<string>
  {
    Header + seq(|names|, i requires 0 <= i < |names| => Paragraph(names[i])) + Footer
  }

  /** A paragraph is the opening tag, the escaped name with no raw `<`,
      `>`, `"` or `'`, and the closing tag; unescaping its body gives the
      name back. */
  lemma ParagraphLayout(name: string)
    ensures var line := Paragraph(name);
            |line| >= |ParagraphOpen| + |ParagraphClose|
            && line[..|ParagraphOpen|] == ParagraphOpen
            && line[|line| - |ParagraphClose|..] == ParagraphClose
            && (forall k :: |ParagraphOpen| <= k < |line| - |ParagraphClose| ==> !IsRaw(line[k]))
            && Unescape(line[|ParagraphOpen|..|line| - |ParagraphClose|]) == name
  {
    var line := Paragraph(name);
    var body := Escape(name);
    assert line[|ParagraphOpen|..|line| - |ParagraphClose|] == body;
    assert forall k :: |ParagraphOpen| <= k < |line| - |ParagraphClose| ==> line[k] == body[k - |ParagraphOpen|];
    UnescapeEscape(name);
  }

  /** The page is the header, one paragraph per name in the order given,
      and the footer. */
  lemma IndexLinesLayout(names: seq<string>)
    ensures var lines := IndexLines(names);
            |Header| == 10 && Footer == ["</body>", "</html>"]
            && |lines| == |Header| + |names| + |Footer|
            && lines[..|Header|] == Header
            && lines[|Header| + |names|..] == Footer
            && forall i :: 0 <= i < |names| ==> lines[|Header| + i] == Paragraph(names[i])
  {
  }
}
