/** The repository-list-to-project-card transformation of the portfolio's
    GitHub service: colour hashing, display title, placeholder SVG image,
    GitHub Pages URL, and the filter / sort / map pipeline with its
    fail-soft rule.  The HTTP exchange is an input value (`Response`). */
module GitHubService {
  import opened Options
  import opened Decimal
  import opened Base64

  const GitHubUsername: string := "mirzajawad2026"

  /** The fields of a repository object in the GitHub REST response that the
      service reads; `updatedAt` is the `updated_at` instant as a number. */
  datatype Repository = Repository(
    id: int,
    name: string,
    description: Option<string>,
    language: Option<string>,
    stargazersCount: int,
    isPrivate: bool,
    updatedAt: int,
    htmlUrl: string)

  /** One project card, as returned to the UI. */
  datatype Project = Project(
    id: int,
    title: string,
    description: string,
    color: string,
    image: string,
    liveDemo: string,
    code: string,
    language: string,
    stars: int,
    updatedAt: int)

  // ---------------------------------------------------------------- colour

  const Palette: seq<string> := [
    "#FF6B6B", "#4ECDC4", "#95E1D3", "#F38181", "#AA96DA",
    "#FCBAD3", "#A8EDEA", "#FED6E3", "#667eea", "#f093fb",
    "#FA8072", "#20B2AA", "#9370DB", "#FF8C94", "#6C5CE7"]

  /** Sum of the character codes of `s`. */
  function CharCodeSum(s: string): nat
    decreases |s|
  {
    if s == [] then 0 else s[0] as int + CharCodeSum(s[1..])
  }

  /** The palette entry a code sum selects. */
  function PaletteAt(sum: nat): (color: string)
    ensures color in Palette
  {
    Palette[sum % |Palette|]
  }

  /** `generateColor`: the palette entry at the code sum modulo 15. */
  function GenerateColor(str: string): (color: string)
    ensures color in Palette
  {
    PaletteAt(CharCodeSum(str))
  }

  lemma {:induction false} CharCodeSumConcat(a: string, b: string)
    ensures CharCodeSum(a + b) == CharCodeSum(a) + CharCodeSum(b)
    decreases |a|
  {
    if a != [] {
      assert (a + b)[1..] == a[1..] + b;
      CharCodeSumConcat(a[1..], b);
    } else {
      assert a + b == b;
    }
  }

  /** The code sum depends only on which characters occur, not their order. */
  lemma {:induction false} CharCodeSumPermutation(a: string, b: string)
    requires multiset(a) == multiset(b)
    ensures CharCodeSum(a) == CharCodeSum(b)
    decreases |a|
  {
    if a == [] {
      assert |b| == |multiset(b)| == 0;
    } else {
      assert a[0] in multiset(b);
      var j :| 0 <= j < |b| && b[j] == a[0];
      var rest := b[..j] + b[j + 1..];
      MultisetWithout(b, j);
      assert a == [a[0]] + a[1..];
      assert multiset(a[1..]) == multiset(a) - multiset{a[0]};
      CharCodeSumPermutation(a[1..], rest);
      CharCodeSumWithout(b, j);
    }
  }

  /** Removing position `j` removes one occurrence of `s[j]`. */
  lemma MultisetWithout<T>(s: seq<T>, j: nat)
    requires j < |s|
    ensures multiset(s[..j] + s[j + 1..]) == multiset(s) - multiset{s[j]}
  {
    assert s == s[..j] + ([s[j]] + s[j + 1..]);
  }

  /** Removing position `j` lowers the code sum by that character's code. */
  lemma CharCodeSumWithout(s: string, j: nat)
    requires j < |s|
    ensures CharCodeSum(s) == s[j] as int + CharCodeSum(s[..j] + s[j + 1..])
  {
    var pre, post := s[..j], s[j + 1..];
    var mid := [s[j]] + post;
    assert s == pre + mid;
    assert mid[0] == s[j] && mid[1..] == post;
    assert CharCodeSum(mid) == s[j] as int + CharCodeSum(post);
    CharCodeSumConcat(pre, mid);
    CharCodeSumConcat(pre, post);
  }

  /** Any reordering of a string's characters yields the same colour. */
  lemma ColorOfPermutation(a: string, b: string)
    requires multiset(a) == multiset(b)
    ensures GenerateColor(a) == GenerateColor(b)
  {
    CharCodeSumPermutation(a, b);
  }

  /** The secondary colour `generateColor(name + index)` mixes the index's
      decimal digits into the name's code sum. */
  lemma SecondaryColor(name: string, index: nat)
    ensures GenerateColor(name + NatToString(index))
         == PaletteAt(CharCodeSum(name) + CharCodeSum(NatToString(index)))
  {
    CharCodeSumConcat(name, NatToString(index));
  }

  /** The same name at positions 0 and 1 gets different secondary colours. */
  lemma SecondaryDiffers()
    ensures GenerateColor("a" + NatToString(0)) != GenerateColor("a" + NatToString(1))
  {
    SecondaryColor("a", 0);
    SecondaryColor("a", 1);
    assert CharCodeSum("a") == 97;
    assert NatToString(0) == "0" && CharCodeSum("0") == 48;
    assert NatToString(1) == "1" && CharCodeSum("1") == 49;
    AdjacentSums();
  }

  /** Code sums 145 and 146 select neighbouring, different palette entries. */
  lemma AdjacentSums()
    ensures PaletteAt(145) != PaletteAt(146)
  {
    var n := |Palette|;
    assert n == 15;
    assert 145 % n == 10 && 146 % n == 11;
    assert Palette[10][1] != Palette[11][1];
  }

  // ------------------------------------------------------------ title, URL

  /** `name.replace(/-/g, " ")`. */
  function Title(name: string): (title: string)
    ensures |title| == |name|
    ensures forall i :: 0 <= i < |name| ==>
      title[i] == (if name[i] == '-' then ' ' else name[i])
    ensures '-' !in title
    decreases |name|
  {
    if name == [] then []
    else [if name[0] == '-' then ' ' else name[0]] + Title(name[1..])
  }

  const PagesUrlPrefix: string := "https://" + GitHubUsername + ".github.io/"

  /** `generateGitHubPagesUrl`. */
  function GitHubPagesUrl(repoName: string): (url: string)
    ensures |url| == |PagesUrlPrefix| + |repoName| + 1
    ensures url[..|PagesUrlPrefix|] == PagesUrlPrefix && url[|url| - 1] == '/'
    ensures url[|PagesUrlPrefix|..|url| - 1] == repoName
  {
    PagesUrlPrefix + repoName + "/"
  }

  /** Different repositories get different Pages URLs. */
  lemma GitHubPagesUrlInjective(a: string, b: string)
    requires GitHubPagesUrl(a) == GitHubPagesUrl(b)
    ensures a == b
  {
  }

  /** JavaScript's `value || fallback` for an optional string field. */
  function OrDefault(value: Option<string>, fallback: string): (r: string)
    ensures value.Some? && value.value != "" ==> r == value.value
    ensures value.None? || value.value == "" ==> r == fallback
  {
    if value.Some? && value.value != "" then value.value else fallback
  }

  const DefaultDescription: string := "A GitHub repository project"
  const DefaultLanguage: string := "Repository"

  // ------------------------------------------------------------- SVG image

  const MaxLabelLength: nat := 16

  /** `title.substring(0, 16)`. */
  function Label(title: string): (shown: string)
    ensures |shown| == if |title| < MaxLabelLength then |title| else MaxLabelLength
    ensures shown <= title
    ensures |title| <= MaxLabelLength ==> shown == title
  {
    if |title| <= MaxLabelLength then title else title[..MaxLabelLength]
  }

  /** Joins strings in order, as a template literal joins its text and its
      substitutions. */
  function Concat(parts: seq<string>): string {
    if parts == [] then "" else Concat(parts[..|parts| - 1]) + parts[|parts| - 1]
  }

  // The template's own text comes in four stretches between the colours and
  // the label. Each stretch is a list of pieces of at most 30 characters, so
  // that the characters of each piece can be checked one piece at a time.

  // The root element and the gradient, up to the first colour.
  const SvgOpen: string := Concat(SvgOpenPieces)
  const SvgOpenPieces: seq<string> := [
    SvgOpen1, SvgOpen2, SvgOpen3, SvgOpen4, SvgOpen5, SvgOpen6, SvgOpen7,
    SvgOpen8]
  const SvgOpen1: string := "<svg xmlns="
  const SvgOpen2: string := "\"http://www.w3.org/2000/svg\" "
  const SvgOpen3: string := "width=\"400\" height=\"250\" "
  const SvgOpen4: string := "viewBox=\"0 0 400 250\">\n  "
  const SvgOpen5: string := "<defs>\n    <linearGradient id="
  const SvgOpen6: string := "\"grad1\" x1=\"0%\" y1=\"0%\" x2="
  const SvgOpen7: string := "\"100%\" y2=\"100%\">\n      <stop "
  const SvgOpen8: string := "offset=\"0%\" style=\"stop-color:"

  // Between the two colours.
  const SvgSecondStop: string := Concat(SvgSecondStopPieces)
  const SvgSecondStopPieces: seq<string> := [
    SvgSecondStop1, SvgSecondStop2, SvgSecondStop3]
  const SvgSecondStop1: string := ";stop-opacity:1\" />\n      "
  const SvgSecondStop2: string := "<stop offset=\"100%\" style="
  const SvgSecondStop3: string := "\"stop-color:"

  // The end of the gradient, the background, the circles and the text
  // element, up to the label.
  const SvgShapes: string := Concat(SvgShapesPieces)
  const SvgShapesPieces: seq<string> := [
    SvgShapes1, SvgShapes2, SvgShapes3, SvgShapes4, SvgShapes5,
    SvgShapes6, SvgShapes7, SvgShapes8, SvgShapes9, SvgShapes10,
    SvgShapes11, SvgShapes12, SvgShapes13, SvgShapes14, SvgShapes15,
    SvgShapes16, SvgShapes17]
  const SvgShapes1: string := ";stop-opacity:0.9\" />\n    "
  const SvgShapes2: string := "</linearGradient>\n  </defs>\n  "
  const SvgShapes3: string := "<rect width=\"400\" height="
  const SvgShapes4: string := "\"250\" fill=\"url(#grad1)\"/>\n  "
  const SvgShapes5: string := "<rect x=\"0\" y=\"0\" width=\"400\" "
  const SvgShapes6: string := "height=\"4\" fill=\"rgba(255,255,"
  const SvgShapes7: string := "255,0.5)\"/>\n  <circle cx=\"80\" "
  const SvgShapes8: string := "cy=\"60\" r=\"25\" fill=\"rgba(255,"
  const SvgShapes9: string := "255,255,0.15)\"></circle>\n  "
  const SvgShapes10: string := "<circle cx=\"320\" cy=\"190\" r="
  const SvgShapes11: string := "\"35\" fill=\"rgba(255,255,255,"
  const SvgShapes12: string := "0.12)\"></circle>\n  <text x="
  const SvgShapes13: string := "\"200\" y=\"145\" font-size=\"36\" "
  const SvgShapes14: string := "font-weight=\"bold\" fill="
  const SvgShapes15: string := "\"white\" text-anchor=\"middle\" "
  const SvgShapes16: string := "font-family=\"Arial, "
  const SvgShapes17: string := "Helvetica, sans-serif\">"

  // After the label: the rule under it and the end of the document.
  const SvgClose: string := Concat(SvgClosePieces)
  const SvgClosePieces: seq<string> := [
    SvgClose1, SvgClose2, SvgClose3, SvgClose4]
  const SvgClose1: string := "</text>\n  <rect x=\"50\" y="
  const SvgClose2: string := "\"170\" width=\"300\" height=\"2\" "
  const SvgClose3: string := "fill=\"rgba(255,255,255,"
  const SvgClose4: string := "0.3)\"></rect>\n</svg>"

  /** The SVG document of `generateSVGImage`, before base 64 encoding. */
  function SvgMarkup(title: string, color1: string, color2: string): string {
    Concat([SvgOpen, color1, SvgSecondStop, color2, SvgShapes, Label(title), SvgClose])
  }

  const DataUriPrefix: string := "data:image/svg+xml;base64,"

  /** `generateSVGImage`; `None` when `btoa` throws on a character above
      U+00FF. */
  function GenerateSVGImage(title: string, color1: string, color2: string): (image: Option<string>)
    ensures image.Some? <==> IsLatin1(SvgMarkup(title, color1, color2))
    ensures image.Some? ==>
      && DataUriPrefix <= image.value
      && Atob(image.value[|DataUriPrefix|..]) == Some(SvgMarkup(title, color1, color2))
  {
    var svg := SvgMarkup(title, color1, color2);
    match Btoa(svg)
    case None => None
    case Some(encoded) =>
      AtobBtoa(svg);
      assert (DataUriPrefix + encoded)[|DataUriPrefix|..] == encoded;
      Some(DataUriPrefix + encoded)
  }

  /** The markup is a head that does not depend on the title, then the
      label, then the closing text. */
  lemma SvgMarkupAroundLabel(title: string, color1: string, color2: string)
    ensures SvgMarkup(title, color1, color2)
         == Concat([SvgOpen, color1, SvgSecondStop, color2, SvgShapes]) + Label(title) + SvgClose
  {
    var parts := [SvgOpen, color1, SvgSecondStop, color2, SvgShapes, Label(title), SvgClose];
    var head := [SvgOpen, color1, SvgSecondStop, color2, SvgShapes];
    assert parts[..6][..5] == head;
    assert Concat(parts) == Concat(parts[..6]) + SvgClose;
    assert Concat(parts[..6]) == Concat(head) + Label(title);
  }

  /** Two titles give the same markup exactly when their labels agree: the
      markup shows the title cut to 16 characters and nothing else of it. */
  lemma SvgMarkupDeterminedByLabel(t1: string, t2: string, color1: string, color2: string)
    ensures SvgMarkup(t1, color1, color2) == SvgMarkup(t2, color1, color2)
       <==> Label(t1) == Label(t2)
  {
    var head := Concat([SvgOpen, color1, SvgSecondStop, color2, SvgShapes]);
    var m1, m2 := SvgMarkup(t1, color1, color2), SvgMarkup(t2, color1, color2);
    SvgMarkupAroundLabel(t1, color1, color2);
    SvgMarkupAroundLabel(t2, color1, color2);
    if m1 == m2 {
      assert |Label(t1)| == |Label(t2)|;
      assert Label(t1) == m1[|head|..|head| + |Label(t1)|];
      assert Label(t2) == m2[|head|..|head| + |Label(t2)|];
    }
  }

  /** A title longer than 16 characters is shown as its first 16. */
  lemma SvgMarkupTruncates(title: string, color1: string, color2: string)
    requires |title| > MaxLabelLength
    ensures SvgMarkup(title, color1, color2) == SvgMarkup(title[..MaxLabelLength], color1, color2)
  {
    SvgMarkupDeterminedByLabel(title, title[..MaxLabelLength], color1, color2);
  }

  /** Joined strings are Latin-1 exactly when every one of them is. */
  lemma {:induction false} ConcatLatin1(parts: seq<string>)
    ensures IsLatin1(Concat(parts)) <==> forall k :: 0 <= k < |parts| ==> IsLatin1(parts[k])
  {
    if parts != [] {
      var init := parts[..|parts| - 1];
      ConcatLatin1(init);
      Latin1Concat(Concat(init), parts[|parts| - 1]);
      assert forall k :: 0 <= k < |init| ==> init[k] == parts[k];
    }
  }

  // Each stretch of the template is Latin-1 because each of its pieces is;
  // every piece is checked character by character in a lemma of its own.

  lemma SvgOpenLatin1()
    ensures IsLatin1(SvgOpen)
  {
    SvgOpen1Latin1();
    SvgOpen2Latin1();
    SvgOpen3Latin1();
    SvgOpen4Latin1();
    SvgOpen5Latin1();
    SvgOpen6Latin1();
    SvgOpen7Latin1();
    SvgOpen8Latin1();
    ConcatLatin1(SvgOpenPieces);
  }

  lemma SvgOpen1Latin1() ensures IsLatin1(SvgOpen1) {}
  lemma SvgOpen2Latin1() ensures IsLatin1(SvgOpen2) {}
  lemma SvgOpen3Latin1() ensures IsLatin1(SvgOpen3) {}
  lemma SvgOpen4Latin1() ensures IsLatin1(SvgOpen4) {}
  lemma SvgOpen5Latin1() ensures IsLatin1(SvgOpen5) {}
  lemma SvgOpen6Latin1() ensures IsLatin1(SvgOpen6) {}
  lemma SvgOpen7Latin1() ensures IsLatin1(SvgOpen7) {}
  lemma SvgOpen8Latin1() ensures IsLatin1(SvgOpen8) {}

  lemma SvgSecondStopLatin1()
    ensures IsLatin1(SvgSecondStop)
  {
    SvgSecondStop1Latin1();
    SvgSecondStop2Latin1();
    SvgSecondStop3Latin1();
    ConcatLatin1(SvgSecondStopPieces);
  }

  lemma SvgSecondStop1Latin1() ensures IsLatin1(SvgSecondStop1) {}
  lemma SvgSecondStop2Latin1() ensures IsLatin1(SvgSecondStop2) {}
  lemma SvgSecondStop3Latin1() ensures IsLatin1(SvgSecondStop3) {}

  lemma SvgShapesLatin1()
    ensures IsLatin1(SvgShapes)
  {
    SvgShapes1Latin1();
    SvgShapes2Latin1();
    SvgShapes3Latin1();
    SvgShapes4Latin1();
    SvgShapes5Latin1();
    SvgShapes6Latin1();
    SvgShapes7Latin1();
    SvgShapes8Latin1();
    SvgShapes9Latin1();
    SvgShapes10Latin1();
    SvgShapes11Latin1();
    SvgShapes12Latin1();
    SvgShapes13Latin1();
    SvgShapes14Latin1();
    SvgShapes15Latin1();
    SvgShapes16Latin1();
    SvgShapes17Latin1();
    ConcatLatin1(SvgShapesPieces);
  }

  lemma SvgShapes1Latin1() ensures IsLatin1(SvgShapes1) {}
  lemma SvgShapes2Latin1() ensures IsLatin1(SvgShapes2) {}
  lemma SvgShapes3Latin1() ensures IsLatin1(SvgShapes3) {}
  lemma SvgShapes4Latin1() ensures IsLatin1(SvgShapes4) {}
  lemma SvgShapes5Latin1() ensures IsLatin1(SvgShapes5) {}
  lemma SvgShapes6Latin1() ensures IsLatin1(SvgShapes6) {}
  lemma SvgShapes7Latin1() ensures IsLatin1(SvgShapes7) {}
  lemma SvgShapes8Latin1() ensures IsLatin1(SvgShapes8) {}
  lemma SvgShapes9Latin1() ensures IsLatin1(SvgShapes9) {}
  lemma SvgShapes10Latin1() ensures IsLatin1(SvgShapes10) {}
  lemma SvgShapes11Latin1() ensures IsLatin1(SvgShapes11) {}
  lemma SvgShapes12Latin1() ensures IsLatin1(SvgShapes12) {}
  lemma SvgShapes13Latin1() ensures IsLatin1(SvgShapes13) {}
  lemma SvgShapes14Latin1() ensures IsLatin1(SvgShapes14) {}
  lemma SvgShapes15Latin1() ensures IsLatin1(SvgShapes15) {}
  lemma SvgShapes16Latin1() ensures IsLatin1(SvgShapes16) {}
  lemma SvgShapes17Latin1() ensures IsLatin1(SvgShapes17) {}

  lemma SvgCloseLatin1()
    ensures IsLatin1(SvgClose)
  {
    SvgClose1Latin1();
    SvgClose2Latin1();
    SvgClose3Latin1();
    SvgClose4Latin1();
    ConcatLatin1(SvgClosePieces);
  }

  lemma SvgClose1Latin1() ensures IsLatin1(SvgClose1) {}
  lemma SvgClose2Latin1() ensures IsLatin1(SvgClose2) {}
  lemma SvgClose3Latin1() ensures IsLatin1(SvgClose3) {}
  lemma SvgClose4Latin1() ensures IsLatin1(SvgClose4) {}

  /** Every character of the template's own text is Latin-1. */
  lemma TemplateIsLatin1()
    ensures IsLatin1(SvgOpen) && IsLatin1(SvgSecondStop) && IsLatin1(SvgShapes) && IsLatin1(SvgClose)
  {
    SvgOpenLatin1();
    SvgSecondStopLatin1();
    SvgShapesLatin1();
    SvgCloseLatin1();
  }

  lemma PaletteIsLatin1()
    ensures forall c :: c in Palette ==> IsLatin1(c)
  {
  }

  /** `btoa` accepts the markup exactly when both colours and the label are
      Latin-1: the template's own text always is. */
  lemma SvgMarkupLatin1(title: string, color1: string, color2: string)
    ensures IsLatin1(SvgMarkup(title, color1, color2))
       <==> IsLatin1(color1) && IsLatin1(color2) && IsLatin1(Label(title))
  {
    var parts := [SvgOpen, color1, SvgSecondStop, color2, SvgShapes, Label(title), SvgClose];
    TemplateIsLatin1();
    ConcatLatin1(parts);
    assert parts[1] == color1 && parts[3] == color2 && parts[5] == Label(title);
  }

  // ----------------------------------------------------------------- filter

  /** `repos.filter(repo => !repo.private)`. */
  function PublicOnly(repos: seq<Repository>): (r: seq<Repository>)
    ensures |r| <= |repos|
    ensures forall i :: 0 <= i < |r| ==> !r[i].isPrivate
    decreases |repos|
  {
    if repos == [] then []
    else if repos[0].isPrivate then PublicOnly(repos[1..])
    else [repos[0]] + PublicOnly(repos[1..])
  }

  /** Filtering keeps every public repository as often as it occurs and
      drops every private one. */
  lemma {:induction false} PublicOnlyCount(repos: seq<Repository>)
    ensures forall x :: multiset(PublicOnly(repos))[x] == if x.isPrivate then 0 else multiset(repos)[x]
    decreases |repos|
  {
    if repos != [] {
      PublicOnlyCount(repos[1..]);
      assert repos == [repos[0]] + repos[1..];
    }
  }

  lemma PublicOnlyMembers(repos: seq<Repository>)
    ensures forall x :: x in PublicOnly(repos) <==> x in repos && !x.isPrivate
  {
    PublicOnlyCount(repos);
    forall x
      ensures x in PublicOnly(repos) <==> x in repos && !x.isPrivate
    {
      assert x in PublicOnly(repos) <==> x in multiset(PublicOnly(repos));
      assert x in repos <==> x in multiset(repos);
    }
  }

  /** Filtering works element by element, so it keeps the input order. */
  lemma {:induction false} PublicOnlyConcat(a: seq<Repository>, b: seq<Repository>)
    ensures PublicOnly(a + b) == PublicOnly(a) + PublicOnly(b)
    decreases |a|
  {
    if a == [] {
      assert a + b == b;
    } else {
      assert (a + b)[1..] == a[1..] + b;
      PublicOnlyConcat(a[1..], b);
    }
  }

  /** Where each kept repository sat in the response, from position `from`
      on: ascending positions, so filtering keeps relative order. */
  function PublicPositions(repos: seq<Repository>, from: nat): (pos: seq<nat>)
    requires from <= |repos|
    ensures |pos| == |PublicOnly(repos[from..])|
    ensures forall k :: 0 <= k < |pos| ==>
      from <= pos[k] < |repos| && PublicOnly(repos[from..])[k] == repos[pos[k]]
    ensures forall k, l :: 0 <= k < l < |pos| ==> pos[k] < pos[l]
    decreases |repos| - from
  {
    if from == |repos| then []
    else
      assert repos[from..][1..] == repos[from + 1..];
      var rest := PublicPositions(repos, from + 1);
      if repos[from].isPrivate then rest else [from] + rest
  }

  /** Every public repository from `from` on has its position listed. */
  lemma {:induction false} PublicPositionsComplete(repos: seq<Repository>, from: nat)
    requires from <= |repos|
    ensures forall i :: from <= i < |repos| && !repos[i].isPrivate ==> i in PublicPositions(repos, from)
    decreases |repos| - from
  {
    if from < |repos| {
      PublicPositionsComplete(repos, from + 1);
      assert repos[from..][1..] == repos[from + 1..];
    }
  }

  // ------------------------------------------------------------------- sort

  /** Most recently updated first. */
  predicate NewestFirst(s: seq<Repository>) {
    forall i, j :: 0 <= i < j < |s| ==> s[i].updatedAt >= s[j].updatedAt
  }

  /** Places `x` before the first element it is not older than. */
  function InsertByUpdated(x: Repository, s: seq<Repository>): (r: seq<Repository>)
    requires NewestFirst(s)
    ensures NewestFirst(r)
    ensures multiset(r) == multiset(s) + multiset{x}
    decreases |s|
  {
    if s == [] || x.updatedAt >= s[0].updatedAt then
      NewestFirstCons(x, s);
      [x] + s
    else
      var rest := InsertByUpdated(x, s[1..]);
      assert s == [s[0]] + s[1..];
      NoNewerThan(rest, s[1..], x, s[0].updatedAt);
      NewestFirstCons(s[0], rest);
      [s[0]] + rest
  }

  /** A newest-first list stays newest first under an element no older
      than all of it. */
  lemma NewestFirstCons(x: Repository, s: seq<Repository>)
    requires NewestFirst(s)
    requires forall k :: 0 <= k < |s| ==> s[k].updatedAt <= x.updatedAt
    ensures NewestFirst([x] + s)
  {
  }

  /** A sequence holding the elements of `s` and `x`, all no newer than
      `bound`, may be placed after an element stamped `bound`. */
  lemma NoNewerThan(r: seq<Repository>, s: seq<Repository>, x: Repository, bound: int)
    requires multiset(r) == multiset(s) + multiset{x}
    requires x.updatedAt <= bound
    requires forall k :: 0 <= k < |s| ==> s[k].updatedAt <= bound
    ensures forall k :: 0 <= k < |r| ==> r[k].updatedAt <= bound
  {
    forall k | 0 <= k < |r|
      ensures r[k].updatedAt <= bound
    {
      assert r[k] in multiset(r);
      if r[k] != x {
        assert r[k] in s;
      }
    }
  }

  /** `.sort((a, b) => new Date(b.updated_at) - new Date(a.updated_at))`:
      a stable sort, newest first, given here as an insertion sort. */
  function SortByUpdated(s: seq<Repository>): (r: seq<Repository>)
    ensures NewestFirst(r)
    ensures |r| == |s| && multiset(r) == multiset(s)
    decreases |s|
  {
    if s == [] then []
    else
      assert s == [s[0]] + s[1..];
      var r := InsertByUpdated(s[0], SortByUpdated(s[1..]));
      assert |r| == |multiset(r)|;
      r
  }

  /** The repositories with timestamp `t`, in order. */
  function WithTimestamp(s: seq<Repository>, t: int): seq<Repository>
    decreases |s|
  {
    if s == [] then []
    else if s[0].updatedAt == t then [s[0]] + WithTimestamp(s[1..], t)
    else WithTimestamp(s[1..], t)
  }

  lemma {:induction false} WithTimestampConcat(a: seq<Repository>, b: seq<Repository>, t: int)
    ensures WithTimestamp(a + b, t) == WithTimestamp(a, t) + WithTimestamp(b, t)
    decreases |a|
  {
    if a == [] {
      assert a + b == b;
    } else {
      assert (a + b)[1..] == a[1..] + b;
      WithTimestampConcat(a[1..], b, t);
    }
  }

  lemma {:induction false} InsertStable(x: Repository, s: seq<Repository>, t: int)
    requires NewestFirst(s)
    ensures WithTimestamp(InsertByUpdated(x, s), t) == WithTimestamp([x] + s, t)
    decreases |s|
  {
    if s != [] && x.updatedAt < s[0].updatedAt {
      InsertStable(x, s[1..], t);
      WithTimestampConcat([s[0]], InsertByUpdated(x, s[1..]), t);
      WithTimestampConcat([x], s[1..], t);
      WithTimestampConcat([s[0]], s[1..], t);
      WithTimestampConcat([x], s, t);
      assert s == [s[0]] + s[1..];
    }
  }

  /** Stability: repositories with equal timestamps keep their input order. */
  lemma {:induction false} SortStable(s: seq<Repository>, t: int)
    ensures WithTimestamp(SortByUpdated(s), t) == WithTimestamp(s, t)
    decreases |s|
  {
    if s != [] {
      SortStable(s[1..], t);
      InsertStable(s[0], SortByUpdated(s[1..]), t);
      WithTimestampConcat([s[0]], SortByUpdated(s[1..]), t);
      WithTimestampConcat([s[0]], s[1..], t);
      assert s == [s[0]] + s[1..];
    }
  }

  lemma {:induction false} NewestFirstHeadMax(s: seq<Repository>, t: int)
    requires NewestFirst(s) && WithTimestamp(s, t) != []
    ensures s != [] && s[0].updatedAt >= t
    decreases |s|
  {
    if s[0].updatedAt != t {
      NewestFirstHeadMax(s[1..], t);
    }
  }

  /** Two newest-first orderings that keep every timestamp's repositories
      in the same order are the same sequence. */
  lemma {:induction false} NewestFirstStableUnique(a: seq<Repository>, b: seq<Repository>)
    requires NewestFirst(a) && NewestFirst(b)
    requires forall t :: WithTimestamp(a, t) == WithTimestamp(b, t)
    ensures a == b
    decreases |a|
  {
    assert a != [] ==> WithTimestamp(a, a[0].updatedAt) != [];
    assert b != [] ==> WithTimestamp(b, b[0].updatedAt) != [];
    if a != [] {
      var t := a[0].updatedAt;
      assert WithTimestamp(a, t) == [a[0]] + WithTimestamp(a[1..], t);
      NewestFirstHeadMax(b, t);
      assert WithTimestamp(b, b[0].updatedAt) != [];
      NewestFirstHeadMax(a, b[0].updatedAt);
      assert b[0].updatedAt == t;
      assert WithTimestamp(b, t) == [b[0]] + WithTimestamp(b[1..], t);
      assert WithTimestamp(a, t) == WithTimestamp(b, t);
      assert WithTimestamp(a, t)[0] == a[0] && WithTimestamp(b, t)[0] == b[0];
      forall u
        ensures WithTimestamp(a[1..], u) == WithTimestamp(b[1..], u)
      {
        assert WithTimestamp(a, u) == WithTimestamp(b, u);
        if u == t {
          assert WithTimestamp(a[1..], u) == WithTimestamp(a, u)[1..];
          assert WithTimestamp(b[1..], u) == WithTimestamp(b, u)[1..];
        }
      }
      NewestFirstStableUnique(a[1..], b[1..]);
      assert a == [a[0]] + a[1..] && b == [b[0]] + b[1..];
    }
  }

  /** Any stable newest-first ordering of `s` is the one `SortByUpdated`
      gives: the sorted order is fully determined by the input. */
  lemma SortByUpdatedUnique(s: seq<Repository>, r: seq<Repository>)
    requires NewestFirst(r)
    requires forall t :: WithTimestamp(r, t) == WithTimestamp(s, t)
    ensures r == SortByUpdated(s)
  {
    forall t
      ensures WithTimestamp(r, t) == WithTimestamp(SortByUpdated(s), t)
    {
      SortStable(s, t);
    }
    NewestFirstStableUnique(r, SortByUpdated(s));
  }

  // -------------------------------------------------------------------- map

  /** `btoa` accepts the image markup of `repo` at position `index`. */
  predicate ImageEncodable(repo: Repository, index: nat) {
    IsLatin1(SvgMarkup(Title(repo.name), GenerateColor(repo.name),
                       GenerateColor(repo.name + NatToString(index))))
  }

  /** The callback of `.map((repo, index) => ...)`; `None` when building the
      image throws. */
  function ToProject(repo: Repository, index: nat): (p: Option<Project>)
    ensures p.Some? <==> ImageEncodable(repo, index)
  {
    var color1 := GenerateColor(repo.name);
    var color2 := GenerateColor(repo.name + NatToString(index));
    var displayName := Title(repo.name);
    match GenerateSVGImage(displayName, color1, color2)
    case None => None
    case Some(svgImage) =>
      Some(Project(
        id := repo.id,
        title := displayName,
        description := OrDefault(repo.description, DefaultDescription),
        color := color1,
        image := svgImage,
        liveDemo := GitHubPagesUrl(repo.name),
        code := repo.htmlUrl,
        language := OrDefault(repo.language, DefaultLanguage),
        stars := repo.stargazersCount,
        updatedAt := repo.updatedAt))
  }

  /** `seq.map(callback)` with the callback's index argument, for a
      callback that may throw (`None`): the first element sits at position
      `from`, and a throw in any callback aborts the whole map. */
  function MapIndexed<A, B>(f: (A, nat) -> Option<B>, s: seq<A>, from: nat): (r: Option<seq<B>>)
    ensures r.Some? <==> forall k :: 0 <= k < |s| ==> f(s[k], from + k).Some?
    ensures r.Some? ==> |r.value| == |s|
    ensures r.Some? ==> forall k :: 0 <= k < |s| ==> f(s[k], from + k) == Some(r.value[k])
    decreases |s|
  {
    if s == [] then Some([])
    else
      var head := f(s[0], from);
      var tail := MapIndexed(f, s[1..], from + 1);
      assert forall k :: 1 <= k < |s| ==> s[k] == s[1..][k - 1] && from + k == from + 1 + (k - 1);
      if head.None? || tail.None? then None else Some([head.value] + tail.value)
  }

  /** The transformation applied to the parsed response body. */
  function BuildProjects(repos: seq<Repository>): Option<seq<Project>> {
    MapIndexed(ToProject, SortByUpdated(PublicOnly(repos)), 0)
  }

  // ------------------------------------------------------------ fetch

  /** What the HTTP exchange produced: a transport failure, or a status and
      a body that either parses as a repository list or does not. */
  datatype Response =
    | NetworkError
    | HttpResponse(status: int, body: Option<seq<Repository>>)

  /** `response.ok`. */
  predicate IsOk(status: int) {
    200 <= status <= 299
  }

  /** `fetchGitHubProjects`: every failure becomes the empty list. */
  function FetchGitHubProjects(response: Response): (projects: seq<Project>)
    ensures response.NetworkError? ==> projects == []
    ensures response.HttpResponse? && !IsOk(response.status) ==> projects == []
    ensures response.HttpResponse? && response.body.None? ==> projects == []
    ensures projects != [] ==>
      && response.HttpResponse? && IsOk(response.status) && response.body.Some?
      && BuildProjects(response.body.value) == Some(projects)
    ensures (response.HttpResponse? && IsOk(response.status) && response.body.Some?
             && BuildProjects(response.body.value).Some?)
        ==> projects == BuildProjects(response.body.value).value
  {
    match response
    case NetworkError => []
    case HttpResponse(status, body) =>
      if !IsOk(status) then []
      else match body
        case None => []
        case Some(repos) =>
          match BuildProjects(repos)
          case None => []
          case Some(projects) => projects
  }

  // ------------------------------------------------------ end-to-end facts

  /** The sorted public repositories, one per project card. */
  function Sources(repos: seq<Repository>): seq<Repository> {
    SortByUpdated(PublicOnly(repos))
  }

  /** The sorted list holds exactly the public repositories. */
  lemma SourcesArePublic(repos: seq<Repository>)
    ensures |Sources(repos)| == |PublicOnly(repos)|
    ensures forall r :: r in Sources(repos) <==> r in repos && !r.isPrivate
  {
    PublicOnlyMembers(repos);
    forall r
      ensures r in Sources(repos) <==> r in repos && !r.isPrivate
    {
      assert r in Sources(repos) <==> r in multiset(Sources(repos));
      assert r in PublicOnly(repos) <==> r in multiset(PublicOnly(repos));
    }
  }

  /** A built catalog has one card per public repository, newest first. */
  lemma CatalogShape(repos: seq<Repository>)
    requires BuildProjects(repos).Some?
    ensures |BuildProjects(repos).value| == |PublicOnly(repos)| <= |repos|
    ensures forall i, j :: 0 <= i < j < |BuildProjects(repos).value| ==>
      BuildProjects(repos).value[i].updatedAt >= BuildProjects(repos).value[j].updatedAt
  {
    var ps, src := BuildProjects(repos).value, Sources(repos);
    forall k | 0 <= k < |ps|
      ensures ps[k].updatedAt == src[k].updatedAt
    {
      assert ToProject(src[k], 0 + k) == Some(ps[k]);
    }
  }

  /** The fields a card built from `r` copies or derives from the name,
      description and language. */
  predicate CardFields(p: Project, r: Repository) {
    && p.id == r.id && p.code == r.htmlUrl && p.stars == r.stargazersCount
    && p.updatedAt == r.updatedAt
    && p.title == Title(r.name)
    && p.color == GenerateColor(r.name)
    && p.liveDemo == GitHubPagesUrl(r.name)
    && p.description == OrDefault(r.description, DefaultDescription)
    && p.language == OrDefault(r.language, DefaultLanguage)
  }

  /** The image of a card built from `r` at position `index`: a base64 data
      URI whose payload decodes to the card's markup. */
  predicate CardImage(p: Project, r: Repository, index: nat) {
    && DataUriPrefix <= p.image
    && Atob(p.image[|DataUriPrefix|..])
       == Some(SvgMarkup(Title(r.name), GenerateColor(r.name), GenerateColor(r.name + NatToString(index))))
  }

  /** The mapping callback copies and derives each field as `CardFields`
      says. */
  lemma ToProjectFields(r: Repository, index: nat)
    requires ToProject(r, index).Some?
    ensures CardFields(ToProject(r, index).value, r)
  {
  }

  /** The mapping callback's image encodes the card's markup. */
  lemma ToProjectImage(r: Repository, index: nat)
    requires ToProject(r, index).Some?
    ensures CardImage(ToProject(r, index).value, r, index)
  {
  }

  /** Card `k` is the callback's result on the `k`-th sorted public
      repository. */
  lemma CardAt(repos: seq<Repository>, k: nat)
    requires BuildProjects(repos).Some? && k < |BuildProjects(repos).value|
    ensures k < |Sources(repos)|
    ensures ToProject(Sources(repos)[k], k) == Some(BuildProjects(repos).value[k])
  {
    assert ToProject(Sources(repos)[k], 0 + k) == Some(BuildProjects(repos).value[k]);
  }

  /** Card `k` copies and derives its fields from the `k`-th sorted public
      repository. */
  lemma CatalogFields(repos: seq<Repository>, k: nat)
    requires BuildProjects(repos).Some? && k < |BuildProjects(repos).value|
    ensures k < |Sources(repos)|
    ensures CardFields(BuildProjects(repos).value[k], Sources(repos)[k])
  {
    CardAt(repos, k);
    ToProjectFields(Sources(repos)[k], k);
  }

  /** Card `k` is built from the `k`-th sorted public repository: copied
      fields, derived title, colours, URL, fallbacks and image. */
  lemma CatalogRecord(repos: seq<Repository>, k: nat)
    requires BuildProjects(repos).Some? && k < |BuildProjects(repos).value|
    ensures k < |Sources(repos)|
    ensures Sources(repos)[k] in repos && !Sources(repos)[k].isPrivate
    ensures CardFields(BuildProjects(repos).value[k], Sources(repos)[k])
    ensures CardImage(BuildProjects(repos).value[k], Sources(repos)[k], k)
  {
    CardAt(repos, k);
    ToProjectFields(Sources(repos)[k], k);
    ToProjectImage(Sources(repos)[k], k);
    SourcesArePublic(repos);
  }

  /** Each card's identifier is that of its sorted repository. */
  lemma CardIds(repos: seq<Repository>)
    requires BuildProjects(repos).Some?
    ensures |BuildProjects(repos).value| == |Sources(repos)|
    ensures forall k :: 0 <= k < |BuildProjects(repos).value| ==>
      BuildProjects(repos).value[k].id == Sources(repos)[k].id
  {
    CatalogShape(repos);
    forall k | 0 <= k < |BuildProjects(repos).value|
      ensures BuildProjects(repos).value[k].id == Sources(repos)[k].id
    {
      CatalogFields(repos, k);
    }
  }

  /** Distinct identifiers in the response give distinct card identifiers. */
  predicate UniqueIds(s: seq<Repository>) {
    forall i, j :: 0 <= i < j < |s| ==> s[i].id != s[j].id
  }

  lemma {:induction false} PublicOnlyUniqueIds(s: seq<Repository>)
    requires UniqueIds(s)
    ensures UniqueIds(PublicOnly(s))
    decreases |s|
  {
    if s != [] {
      PublicOnlyUniqueIds(s[1..]);
      PublicOnlyMembers(s[1..]);
      forall y | y in PublicOnly(s[1..])
        ensures y.id != s[0].id
      {
        var j :| 0 <= j < |s[1..]| && s[1..][j] == y;
        assert s[j + 1] == y;
      }
    }
  }

  lemma {:induction false} InsertUniqueIds(x: Repository, s: seq<Repository>)
    requires NewestFirst(s) && UniqueIds(s)
    requires forall y :: y in s ==> y.id != x.id
    ensures UniqueIds(InsertByUpdated(x, s))
    decreases |s|
  {
    if s != [] && x.updatedAt < s[0].updatedAt {
      InsertUniqueIds(x, s[1..]);
      var rest := InsertByUpdated(x, s[1..]);
      forall k | 0 <= k < |rest|
        ensures rest[k].id != s[0].id
      {
        assert rest[k] in multiset(rest);
        if rest[k] != x {
          var j :| 0 <= j < |s[1..]| && s[1..][j] == rest[k];
          assert s[j + 1] == rest[k];
        }
      }
    }
  }

  lemma {:induction false} SortUniqueIds(s: seq<Repository>)
    requires UniqueIds(s)
    ensures UniqueIds(SortByUpdated(s))
    decreases |s|
  {
    if s != [] {
      SortUniqueIds(s[1..]);
      var t := SortByUpdated(s[1..]);
      forall y | y in t
        ensures y.id != s[0].id
      {
        assert y in multiset(s[1..]);
        var j :| 0 <= j < |s[1..]| && s[1..][j] == y;
        assert s[j + 1] == y;
      }
      InsertUniqueIds(s[0], t);
    }
  }

  lemma CatalogUniqueIds(repos: seq<Repository>)
    requires UniqueIds(repos) && BuildProjects(repos).Some?
    ensures forall i, j :: 0 <= i < j < |BuildProjects(repos).value| ==>
      BuildProjects(repos).value[i].id != BuildProjects(repos).value[j].id
  {
    PublicOnlyUniqueIds(repos);
    SortUniqueIds(PublicOnly(repos));
    CardIds(repos);
  }

  /** The image of `r` at any position can be encoded exactly when the
      label of `r` is Latin-1. */
  lemma ImageEncodableIff(r: Repository, index: nat)
    ensures ImageEncodable(r, index) <==> IsLatin1(Label(Title(r.name)))
  {
    PaletteIsLatin1();
    SvgMarkupLatin1(Title(r.name), GenerateColor(r.name), GenerateColor(r.name + NatToString(index)));
  }

  /** Every card's image of the sorted list can be encoded. */
  predicate AllEncodable(repos: seq<Repository>) {
    forall k :: 0 <= k < |Sources(repos)| ==> ImageEncodable(Sources(repos)[k], k)
  }

  lemma BuildProjectsSome(repos: seq<Repository>)
    ensures BuildProjects(repos).Some? <==> AllEncodable(repos)
  {
    var src := Sources(repos);
    assert BuildProjects(repos).Some? <==> forall k :: 0 <= k < |src| ==> ToProject(src[k], 0 + k).Some?;
  }

  /** Every public repository, as a position in the sorted list. */
  lemma PublicHasPosition(repos: seq<Repository>, r: Repository)
    requires r in repos && !r.isPrivate
    ensures exists k :: 0 <= k < |Sources(repos)| && Sources(repos)[k] == r
  {
    SourcesArePublic(repos);
  }

  /** All public repositories' labels are Latin-1. */
  predicate PublicLabelsLatin1(repos: seq<Repository>) {
    forall r :: r in repos && !r.isPrivate ==> IsLatin1(Label(Title(r.name)))
  }

  lemma EncodedAtSomePosition(repos: seq<Repository>, r: Repository)
    requires r in repos && !r.isPrivate
    requires AllEncodable(repos)
    ensures IsLatin1(Label(Title(r.name)))
  {
    PublicHasPosition(repos, r);
    var k :| 0 <= k < |Sources(repos)| && Sources(repos)[k] == r;
    ImageEncodableIff(r, k);
  }

  /** Encodable images mean Latin-1 labels. */
  lemma EncodableOnlyIfLatin1(repos: seq<Repository>)
    requires AllEncodable(repos)
    ensures PublicLabelsLatin1(repos)
  {
    forall r | r in repos && !r.isPrivate
      ensures IsLatin1(Label(Title(r.name)))
    {
      EncodedAtSomePosition(repos, r);
    }
  }

  /** Latin-1 labels make every image encodable. */
  lemma EncodableIfLatin1(repos: seq<Repository>)
    requires PublicLabelsLatin1(repos)
    ensures AllEncodable(repos)
  {
    var src := Sources(repos);
    SourcesArePublic(repos);
    forall k | 0 <= k < |src|
      ensures ImageEncodable(src[k], k)
    {
      assert src[k] in repos && !src[k].isPrivate;
      ImageEncodableIff(src[k], k);
    }
  }

  /** The catalog is built exactly when every public repository's label
      (its title cut to 16 characters) is Latin-1. */
  lemma CatalogBuiltIff(repos: seq<Repository>)
    ensures BuildProjects(repos).Some? <==> PublicLabelsLatin1(repos)
  {
    BuildProjectsSome(repos);
    if AllEncodable(repos) {
      EncodableOnlyIfLatin1(repos);
    } else if PublicLabelsLatin1(repos) {
      EncodableIfLatin1(repos);
    }
  }

  // ------------------------------------------------------------- scenarios

  /** An empty public list, a rate-limit response and a transport failure all
      reach the caller as the same empty list. */
  lemma EmptyListIndistinguishableFromFailure(repos: seq<Repository>)
    ensures FetchGitHubProjects(HttpResponse(200, Some([]))) == []
    ensures FetchGitHubProjects(HttpResponse(403, Some(repos))) == []
    ensures FetchGitHubProjects(HttpResponse(200, None)) == []
    ensures FetchGitHubProjects(NetworkError) == []
  {
    assert Sources([]) == [];
  }

  lemma ScenarioPublic(a: Repository, b: Repository, c: Repository, d: Repository)
    requires !a.isPrivate && b.isPrivate && !c.isPrivate && !d.isPrivate
    ensures PublicOnly([a, b, c, d]) == [a, c, d]
  {
    assert [a, b, c, d][1..] == [b, c, d] && [b, c, d][1..] == [c, d] && [c, d][1..] == [d];
    assert PublicOnly([c, d]) == [c, d];
    assert PublicOnly([b, c, d]) == [c, d];
    assert PublicOnly([a, b, c, d]) == [a] + [c, d] == [a, c, d];
  }

  /** Three public repositories and one private one: the private one is
      dropped and the others come newest first, the two with equal
      timestamps in response order. */
  lemma ScenarioSorted(a: Repository, b: Repository, c: Repository, d: Repository)
    requires !a.isPrivate && b.isPrivate && !c.isPrivate && !d.isPrivate
    requires a.updatedAt < c.updatedAt == d.updatedAt
    ensures PublicOnly([a, b, c, d]) == [a, c, d]
    ensures Sources([a, b, c, d]) == [c, d, a]
  {
    ScenarioPublic(a, b, c, d);
    forall t
      ensures WithTimestamp([c, d, a], t) == WithTimestamp([a, c, d], t)
    {
      ScenarioTimestamps(a, c, d, t);
    }
    SortByUpdatedUnique([a, c, d], [c, d, a]);
  }

  /** Moving the oldest of three to the back keeps every timestamp's
      repositories in the same order. */
  lemma ScenarioTimestamps(a: Repository, c: Repository, d: Repository, t: int)
    requires a.updatedAt < c.updatedAt == d.updatedAt
    ensures WithTimestamp([c, d, a], t) == WithTimestamp([a, c, d], t)
  {
    assert [c, d, a][1..] == [d, a] && [d, a][1..] == [a] && [a][1..] == [];
    assert [a, c, d][1..] == [c, d] && [c, d][1..] == [d] && [d][1..] == [];
    var wa := if a.updatedAt == t then [a] else [];
    var wd := if d.updatedAt == t then [d] else [];
    var wc := if c.updatedAt == t then [c] else [];
    assert WithTimestamp([a], t) == wa;
    assert WithTimestamp([d], t) == wd;
    assert WithTimestamp([d, a], t) == wd + wa;
    assert WithTimestamp([c, d], t) == wc + wd;
    assert WithTimestamp([c, d, a], t) == wc + wd + wa;
    assert WithTimestamp([a, c, d], t) == wa + (wc + wd);
    assert wa == [] || (wc == [] && wd == []);
  }

  /** A missing or empty description, and independently a missing or empty
      language, become the fixed fallback texts on the card. */
  lemma MissingFieldsFallBack(repos: seq<Repository>, k: nat)
    requires BuildProjects(repos).Some? && k < |BuildProjects(repos).value|
    ensures k < |Sources(repos)|
    ensures Sources(repos)[k].description in {None, Some("")} ==>
      BuildProjects(repos).value[k].description == "A GitHub repository project"
    ensures Sources(repos)[k].language in {None, Some("")} ==>
      BuildProjects(repos).value[k].language == "Repository"
  {
    CatalogFields(repos, k);
  }
}
