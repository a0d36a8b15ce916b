/** Where a captured resource is written: its category directory, chosen by
    the first rule that matches, and its file name `asset_<n><extension>`,
    where `n` is the shared save counter. */
module Assets {
  import opened Text
  import opened Capture

  /** The five asset directories, plus the output root for everything else. */
  datatype Category = Css | Js | Images | Fonts | Media | Root

  const ImageExtensions: seq<string> := [".jpg", ".jpeg", ".png", ".gif", ".svg", ".webp", ".ico"]
  const FontExtensions: seq<string> := [".woff", ".woff2", ".ttf", ".eot", ".otf"]
  const MediaExtensions: seq<string> := [".mp4", ".webm", ".mp3", ".wav", ".ogg"]

  predicate IsStyle(r: Resource) {
    r.resourceType == "stylesheet" || r.extension == ".css"
  }

  predicate IsScript(r: Resource) {
    r.resourceType == "script" || r.extension == ".js"
  }

  predicate IsImage(r: Resource) {
    r.resourceType == "image" || r.extension in ImageExtensions
  }

  predicate IsFont(r: Resource) {
    r.extension in FontExtensions
  }

  predicate IsMedia(r: Resource) {
    r.extension in MediaExtensions
  }

  /** The chain of tests the save loop applies, in order. */
  function Classify(r: Resource): Category {
    if IsStyle(r) then Css
    else if IsScript(r) then Js
    else if IsImage(r) then Images
    else if IsFont(r) then Fonts
    else if IsMedia(r) then Media
    else Root
  }

  /** A placement rule: a directory and the test that sends a resource there. */
  datatype Rule = Rule(category: Category, applies: Resource -> bool)

  /** The placement rules as an ordered precedence table. */
  const Rules: seq<Rule> := [
    Rule(Css, IsStyle),
    Rule(Js, IsScript),
    Rule(Images, IsImage),
    Rule(Fonts, IsFont),
    Rule(Media, IsMedia)
  ]

  /** Rule `i` applies to `r` and no earlier rule does. */
  predicate IsFirstRule(rules: seq<Rule>, r: Resource, i: nat) {
    i < |rules| && rules[i].applies(r) && forall j :: 0 <= j < i ==> !rules[j].applies(r)
  }

  /** The category of the first rule that applies, the output root when none does. */
  function FirstApplicable(rules: seq<Rule>, r: Resource): Category
    decreases |rules|
  {
    if |rules| == 0 then Root
    else if rules[0].applies(r) then rules[0].category
    else FirstApplicable(rules[1..], r)
  }

  /** The chain of tests is the precedence table read first-match. */
  lemma ClassifyIsFirstApplicable(r: Resource)
    ensures Classify(r) == FirstApplicable(Rules, r)
  {
    var rs1 := [Rule(Js, IsScript), Rule(Images, IsImage), Rule(Fonts, IsFont), Rule(Media, IsMedia)];
    var rs2 := [Rule(Images, IsImage), Rule(Fonts, IsFont), Rule(Media, IsMedia)];
    var rs3 := [Rule(Fonts, IsFont), Rule(Media, IsMedia)];
    var rs4 := [Rule(Media, IsMedia)];
    assert Rules[1..] == rs1 && rs1[1..] == rs2 && rs2[1..] == rs3 && rs3[1..] == rs4;
    assert rs4[1..] == [];
    if !IsStyle(r) {
      assert FirstApplicable(Rules, r) == FirstApplicable(rs1, r);
      if !IsScript(r) {
        assert FirstApplicable(rs1, r) == FirstApplicable(rs2, r);
        if !IsImage(r) {
          assert FirstApplicable(rs2, r) == FirstApplicable(rs3, r);
          if !IsFont(r) {
            assert FirstApplicable(rs3, r) == FirstApplicable(rs4, r);
            if !IsMedia(r) {
              assert FirstApplicable(rs4, r) == FirstApplicable([], r);
            }
          }
        }
      }
    }
  }

  /** A resource lands in a category directory exactly when that category's
      rule is the first that applies, and at the output root exactly when no
      rule applies. */
  lemma ClassifyFirstMatch(r: Resource)
    ensures Classify(r) != Root ==>
      exists i: nat :: IsFirstRule(Rules, r, i) && Rules[i].category == Classify(r)
    ensures Classify(r) == Root <==> forall i :: 0 <= i < |Rules| ==> !Rules[i].applies(r)
  {
    if IsStyle(r) {
      assert IsFirstRule(Rules, r, 0);
    } else if IsScript(r) {
      assert IsFirstRule(Rules, r, 1);
    } else if IsImage(r) {
      assert IsFirstRule(Rules, r, 2);
    } else if IsFont(r) {
      assert IsFirstRule(Rules, r, 3);
    } else if IsMedia(r) {
      assert IsFirstRule(Rules, r, 4);
    }
  }

  /** A declared stylesheet goes to `css/` whatever its extension, and a
      declared image with a `.js` extension goes to `js/`: the type test of an
      earlier rule and the extension test of a later one do not compete. */
  lemma PlacementPrecedence(r: Resource)
    ensures r.resourceType == "stylesheet" ==> Classify(r) == Css
    ensures r.resourceType == "image" && r.extension == ".js" ==> Classify(r) == Js
    ensures r.extension == ".otf" && !IsStyle(r) && !IsScript(r) && !IsImage(r) ==> Classify(r) == Fonts
  {
  }

  /** The directory below the output root, with its trailing slash. */
  function SubDir(c: Category): string {
    match c
    case Css => "css/"
    case Js => "js/"
    case Images => "images/"
    case Fonts => "fonts/"
    case Media => "media/"
    case Root => ""
  }

  /** `asset_<id><extension>`. */
  function FileName(id: nat, extension: string): string {
    "asset_" + NatToString(id) + extension
  }

  /** A file name is the prefix, the counter's digits, and the extension:
      the digits between the prefix and the extension read back as the
      counter. */
  lemma FileNameShape(id: nat, extension: string)
    ensures var f := FileName(id, extension);
      && StartsWith(f, "asset_")
      && 6 + |extension| < |f| && f[|f| - |extension|..] == extension
      && AllDigits(f[6..|f| - |extension|]) && ParseDecimal(f[6..|f| - |extension|]) == id
  {
    var f := FileName(id, extension);
    ParseNatToString(id);
    assert f[6..|f| - |extension|] == NatToString(id);
  }

  /** The path written into the page: `./<dir>/<file>` or `./<file>`. */
  function RelativePath(c: Category, fileName: string): string {
    "./" + SubDir(c) + fileName
  }

  /** A path is relative to the page and ends in the file name; only a file
      at the output root has nothing between `./` and its name, and any
      other sits right after a `/`. */
  lemma RelativePathShape(c: Category, fileName: string)
    ensures var p := RelativePath(c, fileName);
      && StartsWith(p, "./")
      && 2 + |fileName| <= |p| && p[|p| - |fileName|..] == fileName
      && (c == Root <==> |p| == 2 + |fileName|)
      && (c != Root ==> p[|p| - |fileName| - 1] == '/')
  {
  }

  /** An extension that cannot be mistaken for more digits of the counter. */
  predicate SeparableExtension(e: string) {
    |e| == 0 || !IsDigit(e[0])
  }

  /** Different counters give different file names, provided the extensions
      do not start with a digit. */
  lemma FileNameInjective(m: nat, e1: string, n: nat, e2: string)
    requires SeparableExtension(e1) && SeparableExtension(e2)
    requires FileName(m, e1) == FileName(n, e2)
    ensures m == n && e1 == e2
  {
    var p := "asset_";
    assert FileName(m, e1) == p + (NatToString(m) + e1);
    assert FileName(n, e2) == p + (NatToString(n) + e2);
    assert NatToString(m) + e1 == FileName(m, e1)[|p|..];
    assert NatToString(n) + e2 == FileName(n, e2)[|p|..];
    DigitsThenNonDigit(NatToString(m), e1, NatToString(n), e2);
    NatToStringInjective(m, n);
  }

  /** Why the extension condition matters: asset 1 with extension `2.css`
      and asset 12 with extension `.css` share a file name. */
  lemma DigitExtensionCollides()
    ensures FileName(1, "2.css") == FileName(12, ".css")
  {
    assert NatToString(12) == NatToString(1) + [DigitChar(2)];
  }

  /** The relative path names its directory and file unambiguously. */
  lemma RelativePathInjective(c1: Category, f1: string, c2: Category, f2: string)
    requires StartsWith(f1, "asset_") && StartsWith(f2, "asset_")
    requires RelativePath(c1, f1) == RelativePath(c2, f2)
    ensures c1 == c2 && f1 == f2
  {
    var p := RelativePath(c1, f1);
    assert p[2] == (SubDir(c1) + f1)[0];
    assert p[2] == (SubDir(c2) + f2)[0];
    assert f1[0] == 'a' && f2[0] == 'a';
    assert c1 == c2;
    assert f1 == p[2 + |SubDir(c1)|..];
  }
}
