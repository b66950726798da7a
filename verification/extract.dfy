/** What the item page derives from a description besides its links: which
    links are images (`url_is_image`, app.py) and the checklist
    (`extract_checkboxes`, app.py). */
module Extract {
  import opened Wrappers
  import opened Text
  import opened CheckboxRegex

  /** The alternation `(jpe?g?|png|gif)`: `jp`, `jpe`, `jpg`, `jpeg`, `png`
      or `gif`. */
  predicate IsImageSuffix(w: string)
  {
    w == "jp" || w == "jpe" || w == "jpg" || w == "jpeg" || w == "png" || w == "gif"
  }

  /** The text ends with one of the alternatives. */
  predicate HasImageEnding(s: string)
  {
    EndsWith(s, "jp") || EndsWith(s, "jpe") || EndsWith(s, "jpg") || EndsWith(s, "jpeg")
    || EndsWith(s, "png") || EndsWith(s, "gif")
  }

  /** Python's `re.match(r".*(jpe?g?|png|gif)$", s)` succeeds: the match
      covers `s[..k]`, which `.*` and the alternation can only span when it
      has no newline and ends with an alternative, and `$` accepts `k` at the
      end of `s` or just before a final newline. */
  ghost predicate ImagePatternMatches(s: string)
  {
    exists k, w :: 0 <= k <= |s| && '\n' !in s[..k] && IsImageSuffix(w) && EndsWith(s[..k], w)
      && (k == |s| || (k == |s| - 1 && s[k] == '\n'))
  }

  /** The part of `s` a match may cover: all of it, or all but a final newline. */
  function BeforeFinalNewline(s: string): string
  {
    if |s| > 0 && s[|s| - 1] == '\n' then s[..|s| - 1] else s
  }

  /** `url_is_image(link)`: whether the lowercased link matches the image
      pattern. No dot is required before the ending. */
  function UrlIsImage(link: string): (r: bool)
    ensures r <==> ImagePatternMatches(Lower(link))
  {
    var s := Lower(link);
    var body := BeforeFinalNewline(s);
    ImagePatternAt(s);
    '\n' !in body && HasImageEnding(body)
  }

  /** The pattern can only match by covering `BeforeFinalNewline(s)`. */
  lemma ImagePatternAt(s: string)
    ensures ImagePatternMatches(s) <==>
      '\n' !in BeforeFinalNewline(s) && HasImageEnding(BeforeFinalNewline(s))
  {
    var body := BeforeFinalNewline(s);
    if '\n' !in body && HasImageEnding(body) {
      ImagePatternFromEnding(s);
    }
    if ImagePatternMatches(s) {
      var k, w :| 0 <= k <= |s| && '\n' !in s[..k] && IsImageSuffix(w) && EndsWith(s[..k], w)
        && (k == |s| || (k == |s| - 1 && s[k] == '\n'));
      assert s[..k] == body;
      EndingOfSuffix(body, w);
    }
  }

  lemma ImagePatternFromEnding(s: string)
    requires '\n' !in BeforeFinalNewline(s) && HasImageEnding(BeforeFinalNewline(s))
    ensures ImagePatternMatches(s)
  {
    var body := BeforeFinalNewline(s);
    if EndsWith(body, "jp") {
      ImagePatternWitness(s, "jp");
    } else if EndsWith(body, "jpe") {
      ImagePatternWitness(s, "jpe");
    } else if EndsWith(body, "jpg") {
      ImagePatternWitness(s, "jpg");
    } else if EndsWith(body, "jpeg") {
      ImagePatternWitness(s, "jpeg");
    } else if EndsWith(body, "png") {
      ImagePatternWitness(s, "png");
    } else {
      ImagePatternWitness(s, "gif");
    }
  }

  /** One alternative ending the one-line body is a match. */
  lemma ImagePatternWitness(s: string, w: string)
    requires '\n' !in BeforeFinalNewline(s) && IsImageSuffix(w) && EndsWith(BeforeFinalNewline(s), w)
    ensures ImagePatternMatches(s)
  {
    var k := |BeforeFinalNewline(s)|;
    assert s[..k] == BeforeFinalNewline(s);
  }

  lemma EndingOfSuffix(body: string, w: string)
    requires IsImageSuffix(w) && EndsWith(body, w)
    ensures HasImageEnding(body)
  {
  }

  /** Lowercasing keeps newlines where they are and adds none. */
  lemma LowerNewlines(link: string)
    ensures forall k :: 0 <= k < |link| ==> (Lower(link)[k] == '\n' <==> link[k] == '\n')
  {
  }

  /** On a one-line link of four characters or more, only the last four
      characters decide. */
  lemma ImageByEnding(link: string)
    requires '\n' !in link && |link| >= 4
    ensures UrlIsImage(link) <==> HasImageEnding(Lower(link[|link| - 4..]))
  {
    var s := Lower(link);
    LowerNewlines(link);
    assert '\n' !in s;
    assert BeforeFinalNewline(s) == s;
    LowerSuffix(link, |link| - 4);
    var t := s[|s| - 4..];
    assert EndsWith(s, "jp") <==> EndsWith(t, "jp");
    assert EndsWith(s, "jpe") <==> EndsWith(t, "jpe");
    assert EndsWith(s, "jpg") <==> EndsWith(t, "jpg");
    assert EndsWith(s, "jpeg") <==> EndsWith(t, "jpeg");
    assert EndsWith(s, "png") <==> EndsWith(t, "png");
    assert EndsWith(s, "gif") <==> EndsWith(t, "gif");
  }

  /** `$` also matches before a final newline: appending one changes nothing. */
  lemma FinalNewlineIgnored(link: string)
    requires '\n' !in link
    ensures UrlIsImage(link + "\n") == UrlIsImage(link)
  {
    var s := Lower(link + "\n");
    assert s == Lower(link) + "\n";
    assert BeforeFinalNewline(s) == Lower(link);
    LowerNewlines(link);
    if |link| > 0 {
      assert Lower(link)[|link| - 1] != '\n';
    }
  }

  /** A capitalised extension counts. */
  lemma ImageExampleCapitalised()
    ensures UrlIsImage("http://example.com/cat" + ".PNG")
  {
    ImageIfLastFour("http://example.com/cat", ".PNG", ".png");
  }

  /** An HTML page is not an image. */
  lemma ImageExamplePage()
    ensures !UrlIsImage("http://example.com/page." + "html")
  {
    HtmlIsNoImageEnding();
    ImageIfLastFour("http://example.com/page.", "html", "html");
  }

  lemma HtmlIsNoImageEnding()
    ensures Lower("html") == "html" && !HasImageEnding("html")
  {
    LowerKeepsSmall("html");
    assert !EndsWith("html", "jp") && !EndsWith("html", "jpe") && !EndsWith("html", "jpeg");
  }

  /** As written, the ending need not follow a dot: a path ending in `ajp`
      counts. */
  lemma ImageWithoutDot()
    ensures UrlIsImage("http://example.com" + "/ajp")
  {
    ImageIfLastFour("http://example.com", "/ajp", "/ajp");
    assert EndsWith("/ajp", "jp");
  }

  /** An image link followed by one newline still counts. */
  lemma ImageBeforeFinalNewline()
    ensures UrlIsImage("a." + "jpeg" + "\n")
  {
    ImageIfLastFour("a.", "jpeg", "jpeg");
    FinalNewlineIgnored("a." + "jpeg");
  }

  /** `ImageByEnding` for a link `pre + tail` whose last four characters
      `tail` lowercase to `low`. */
  lemma ImageIfLastFour(pre: string, tail: string, low: string)
    requires '\n' !in pre && '\n' !in tail && |tail| == 4 && Lower(tail) == low
    ensures UrlIsImage(pre + tail) <==> HasImageEnding(low)
  {
    var link := pre + tail;
    assert link[|link| - 4..] == tail;
    ImageByEnding(link);
  }

  /** A newline before the ending defeats the match: `.*` cannot cross it. */
  lemma ImageNotAcrossLines()
    ensures !UrlIsImage("a\nb.png")
  {
    var l := "a\nb.png";
    var s := Lower(l);
    assert s[1] == '\n' && s[|s| - 1] == 'g';
    assert BeforeFinalNewline(s)[1] == '\n';
  }

  /** The strings of `s` that satisfy `p`, in order, repetitions kept. */
  function Filter(s: seq<string>, p: string -> bool): (r: seq<string>)
    ensures |r| <= |s|
    decreases |s|
  {
    if |s| == 0 then []
    else Filter(s[..|s| - 1], p) + (if p(s[|s| - 1]) then [s[|s| - 1]] else [])
  }

  /** Each string is kept as often as it occurs if it satisfies `p`, and
      never otherwise. */
  lemma {:induction false} FilterCount(s: seq<string>, p: string -> bool)
    ensures forall x :: multiset(Filter(s, p))[x] == if p(x) then multiset(s)[x] else 0
    decreases |s|
  {
    if |s| > 0 {
      var init := s[..|s| - 1];
      var last := s[|s| - 1];
      assert s == init + [last];
      FilterCount(init, p);
    }
  }

  lemma {:induction false} FilterAppend(a: seq<string>, b: seq<string>, p: string -> bool)
    ensures Filter(a + b, p) == Filter(a, p) + Filter(b, p)
    decreases |b|
  {
    if |b| > 0 {
      var init := b[..|b| - 1];
      var last := b[|b| - 1];
      assert (a + b)[..|a + b| - 1] == a + init;
      assert (a + b)[|a + b| - 1] == last;
      FilterAppend(a, init, p);
    } else {
      assert a + b == a;
    }
  }

  lemma {:induction false} FilterAll(s: seq<string>, p: string -> bool)
    requires forall k :: 0 <= k < |s| ==> p(s[k])
    ensures Filter(s, p) == s
    decreases |s|
  {
    if |s| > 0 {
      FilterAll(s[..|s| - 1], p);
      assert s == s[..|s| - 1] + [s[|s| - 1]];
    }
  }

  /** `[link for link in links if url_is_image(link)]`: the images among the
      extracted links, in order, duplicates kept. */
  function ImageLinks(links: seq<string>): (r: seq<string>)
    ensures |r| <= |links|
    ensures forall l :: l in r <==> l in links && UrlIsImage(l)
    ensures forall l :: multiset(r)[l] == if UrlIsImage(l) then multiset(links)[l] else 0
  {
    FilterCount(links, UrlIsImage);
    Filter(links, UrlIsImage)
  }

  /** The filter keeps order: the images of two lists of links, one after
      the other, are the images of the first list followed by those of the
      second. */
  lemma ImageLinksAppend(a: seq<string>, b: seq<string>)
    ensures ImageLinks(a + b) == ImageLinks(a) + ImageLinks(b)
  {
    FilterAppend(a, b, UrlIsImage);
  }

  /** A list of links that are all images is kept whole. */
  lemma ImageLinksAllImages(links: seq<string>)
    requires forall k :: 0 <= k < |links| ==> UrlIsImage(links[k])
    ensures ImageLinks(links) == links
  {
    FilterAll(links, UrlIsImage);
  }

  /** One entry of the checklist shown on the item page. */
  datatype Checkbox = Checkbox(done: bool, text: string)

  /** The checkbox a single line yields under Python's anchored match: done
      exactly when group 1 is `x`, the text being group 2. */
  function CheckboxOf(line: string): (r: Option<Checkbox>)
    ensures r.Some? <==> AcceptsAt(Python, line, 0, "") || exists c :: AcceptsAt(Python, line, 0, [c])
  {
    match Match(Python, line)
    case None => None
    case Some(m) => Some(Checkbox(m.sym == "x", m.caption))
  }

  /** The entries one line contributes: none, or its checkbox. */
  function Entries(o: Option<Checkbox>): seq<Checkbox>
  {
    match o
    case None => []
    case Some(b) => [b]
  }

  /** The checkboxes of a list of lines, in line order, at most one per line. */
  function CheckboxesOf(lines: seq<string>): (r: seq<Checkbox>)
    ensures |r| <= |lines|
    decreases |lines|
  {
    if |lines| == 0 then []
    else CheckboxesOf(lines[..|lines| - 1]) + Entries(CheckboxOf(lines[|lines| - 1]))
  }

  /** `extract_checkboxes(text)` as a value: nothing for an empty (or absent)
      description, otherwise the checkboxes of its `\n`-separated lines. */
  function Checkboxes(text: string): (r: seq<Checkbox>)
    ensures text == "" ==> r == []
    ensures |r| <= |Split(text, '\n')|
  {
    if text == "" then [] else CheckboxesOf(Split(text, '\n'))
  }

  /** `extract_checkboxes`: splits the text into lines and appends a
      checkbox for each line the pattern matches. */
  method ExtractCheckboxes(text: string) returns (ret: seq<Checkbox>)
    ensures ret == Checkboxes(text)
    ensures |ret| <= |Split(text, '\n')|
  {
    ret := [];
    if text == "" {
      return;
    }
    var lines := Split(text, '\n');
    for i := 0 to |lines|
      invariant ret == CheckboxesOf(lines[..i])
    {
      var m := Match(Python, lines[i]);
      CheckboxesOfStep(lines, i);
      if m.Some? {
        ret := ret + [Checkbox(m.value.sym == "x", m.value.caption)];
      }
    }
    assert lines[..|lines|] == lines;
  }

  /** One more line contributes its own checkbox, if any. */
  lemma CheckboxesOfStep(lines: seq<string>, i: nat)
    requires i < |lines|
    ensures CheckboxesOf(lines[..i + 1]) == CheckboxesOf(lines[..i]) + Entries(CheckboxOf(lines[i]))
  {
    assert lines[..i + 1][..i] == lines[..i];
  }

  /** A line yields a checkbox exactly when it is `- [`, at most one character,
      `] ` and then the text; `done` is set exactly by `x`. */
  lemma CheckboxLineShape(line: string)
    requires '\n' !in line
    ensures CheckboxOf(line).Some? <==>
      exists sym, t :: |sym| <= 1 && line == Head(sym) + t
    ensures CheckboxOf(line).Some? ==>
      exists sym :: |sym| <= 1 && line == Head(sym) + CheckboxOf(line).value.text
        && (CheckboxOf(line).value.done <==> sym == "x")
  {
    if CheckboxOf(line).Some? {
      ShapeOfCheckbox(line);
    }
    if exists sym, t :: |sym| <= 1 && line == Head(sym) + t {
      var sym, t :| |sym| <= 1 && line == Head(sym) + t;
      CheckboxOfShape(line, sym, t);
    }
  }

  /** A checkbox line is the head with its box character and the caption. */
  lemma ShapeOfCheckbox(line: string)
    requires '\n' !in line && CheckboxOf(line).Some?
    ensures var m := Match(Python, line).value;
      |m.sym| <= 1 && line == Head(m.sym) + CheckboxOf(line).value.text
      && (CheckboxOf(line).value.done <==> m.sym == "x")
  {
    var m := Match(Python, line).value;
    ShapeOfMatch(line, m.sym, m.caption);
  }

  /** An anchored match on a one-line text spans the whole of it. */
  lemma ShapeOfMatch(line: string, sym: string, cap: string)
    requires '\n' !in line && MatchAt(Python, line, 0) == Some(CheckboxMatch(0, sym, cap))
    ensures |sym| <= 1 && line == Head(sym) + cap
  {
    var h := Head(sym);
    assert AcceptsAt(Python, line, 0, sym);
    assert line[0..] == line;
    assert line[..|h|] == h;
    var rest := line[|h|..];
    OneLineRest(line, |h|);
    DotRunWhole(Python, rest);
    assert line == line[..|h|] + rest;
  }

  /** What follows any position of a one-line text is accepted by Python's `.`. */
  lemma OneLineRest(line: string, i: nat)
    requires '\n' !in line && i <= |line|
    ensures forall k :: 0 <= k < |line[i..]| ==> Dot(Python, line[i..][k])
  {
    forall k | 0 <= k < |line[i..]| ensures Dot(Python, line[i..][k]) {
      assert line[i..][k] == line[i + k];
    }
  }

  /** A line made of a head and any one-line rest is a checkbox line. */
  lemma CheckboxOfShape(line: string, sym: string, t: string)
    requires '\n' !in line && |sym| <= 1 && line == Head(sym) + t
    ensures CheckboxOf(line).Some?
  {
    assert line[..|Head(sym)|] == Head(sym);
    if |sym| == 1 {
      assert sym == [sym[0]];
      assert line[3] == sym[0];
      assert AcceptsAt(Python, line, 0, [sym[0]]);
    } else {
      assert AcceptsAt(Python, line, 0, "");
    }
  }

  /** A box holding one character gives a checkbox with the rest of the line,
      done exactly when the character is `x`. */
  lemma OneCharBox(c: char, t: string)
    requires '\n' !in [c] + t
    ensures CheckboxOf(Head([c]) + t) == Some(Checkbox(c == 'x', t))
  {
    var line := Head([c]) + t;
    assert line[3] == c && line[..3] == "- [" && line[4..6] == "] " && line[6..] == t;
    assert line[..6] == Head([c]);
    DotRunWhole(Python, t);
  }

  /** An empty box `[]` gives a checkbox that is not done. */
  lemma EmptyBox(t: string)
    requires '\n' !in t
    ensures CheckboxOf(Head("") + t) == Some(Checkbox(false, t))
  {
    var line := Head("") + t;
    assert line[..5] == Head("") && line[5..] == t;
    assert line[4] == ' ';
    DotRunWhole(Python, t);
  }

  /** A text with a line appended yields that line's checkbox, if any, after
      those of the text. */
  lemma {:induction false} CheckboxesAppendLine(text: string, line: string)
    requires text != "" && '\n' !in line
    ensures Checkboxes(text + "\n" + line) == Checkboxes(text)
      + Entries(CheckboxOf(line))
  {
    SplitAround(text, line, '\n');
    SplitNoSep(line, '\n');
    var lines := Split(text, '\n') + [line];
    assert (text + "\n" + line) == text + ['\n'] + line;
    assert lines[..|lines| - 1] == Split(text, '\n');
  }

  /** A single line, when it is the whole text. */
  lemma CheckboxesOneLine(line: string)
    requires line != "" && '\n' !in line
    ensures Checkboxes(line) == Entries(CheckboxOf(line))
  {
    SplitNoSep(line, '\n');
    assert Split(line, '\n') == [line];
    assert [line][..0] == [];
    assert CheckboxesOf([line]) == CheckboxesOf([]) + Entries(CheckboxOf(line));
  }

  /** A line that does not start with `-` yields nothing. */
  lemma NotCheckboxLine(line: string)
    requires |line| == 0 || line[0] != '-'
    ensures CheckboxOf(line) == None
  {
    AcceptsEmpty(Python, line, 0);
    MatchAtFacts(Python, line, 0);
    if |line| >= 5 {
      assert line[0..5][0] == line[0];
    }
    if |line| >= 3 {
      assert line[0..3][0] == line[0];
    }
  }
}
