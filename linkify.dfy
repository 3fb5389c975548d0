/**
 * `linkify`: every match of the URL pattern
 * `\b(https?|ftp|file)://[-A-Z0-9+&@#/%?=~_|!:,.;]*[-A-Z0-9+&@#/%=~_|]`
 * (case-insensitive, global) is wrapped in an anchor, unless it ends in an
 * image extension; all other text is kept as it is.
 */
module Linkify {
  import opened Wrappers
  import opened JsText
  import opened Decimal

  /** The characters `\b` counts as word characters. */
  predicate IsWordChar(c: char)
  {
    IsAsciiLetter(c) || IsDigit(c) || c == '_'
  }

  /** The last class of the pattern: the characters a URL may end with. */
  predicate IsUrlEndChar(c: char)
  {
    c == '-' || IsAsciiLetter(c) || IsDigit(c) || c in "+&@#/%=~_|"
  }

  /** The repeated class of the pattern: the characters inside a URL. */
  predicate IsUrlBodyChar(c: char)
  {
    IsUrlEndChar(c) || c in "?!:,.;"
  }

  /** `text` holds the lower-case word `w` at `i`, in any case. */
  predicate HasWordAt(text: string, i: nat, w: string)
  {
    i + |w| <= |text| && forall k :: 0 <= k < |w| ==> LowerChar(text[i + k]) == w[k]
  }

  /** The length of the scheme and "://" at `i`, or 0 when none of the pattern's schemes is there. */
  function SchemeLength(text: string, i: nat): (n: nat)
    ensures n == 0 || (6 <= n <= 8 && i + n <= |text|)
    ensures n == 0 <==> !HasWordAt(text, i, "https://") && !HasWordAt(text, i, "http://")
                        && !HasWordAt(text, i, "ftp://") && !HasWordAt(text, i, "file://")
    ensures n == 8 ==> HasWordAt(text, i, "https://")
    ensures n == 6 ==> HasWordAt(text, i, "ftp://")
    ensures n == 7 ==> HasWordAt(text, i, "http://") || HasWordAt(text, i, "file://")
  {
    if HasWordAt(text, i, "https://") then 8
    else if HasWordAt(text, i, "http://") then 7
    else if HasWordAt(text, i, "ftp://") then 6
    else if HasWordAt(text, i, "file://") then 7
    else 0
  }

  /** The pattern matches `text[i..e]`. */
  predicate UrlMatch(text: string, i: nat, e: nat)
  {
    && i < |text|
    && (i == 0 || !IsWordChar(text[i - 1]))
    && 0 < SchemeLength(text, i)
    && i + SchemeLength(text, i) < e <= |text|
    && (forall k :: i + SchemeLength(text, i) <= k < e ==> IsUrlBodyChar(text[k]))
    && IsUrlEndChar(text[e - 1])
  }

  /** The end of the longest run of URL characters from `k`. */
  function BodyRunEnd(text: string, k: nat): (j: nat)
    requires k <= |text|
    ensures k <= j <= |text|
    ensures forall m :: k <= m < j ==> IsUrlBodyChar(text[m])
    ensures j < |text| ==> !IsUrlBodyChar(text[j])
    decreases |text| - k
  {
    if k == |text| || !IsUrlBodyChar(text[k]) then k else BodyRunEnd(text, k + 1)
  }

  /** The greatest `e` in `(b, j]` whose character before it may end a URL. */
  function LastEndBelow(text: string, b: nat, j: nat): (r: Option<nat>)
    requires b <= j <= |text|
    ensures r.Some? ==> b < r.value <= j && IsUrlEndChar(text[r.value - 1])
    ensures r.Some? ==> forall m :: r.value <= m < j ==> !IsUrlEndChar(text[m])
    ensures r.None? ==> forall m :: b <= m < j ==> !IsUrlEndChar(text[m])
    decreases j - b
  {
    if j == b then None
    else if IsUrlEndChar(text[j - 1]) then Some(j)
    else LastEndBelow(text, b, j - 1)
  }

  /**
   * The match that starts at `i`, found as the pattern's greedy repetition
   * finds it: the longest one, and none when there is none
   * (`MatchUrlAtIsLongest`).
   */
  function MatchUrlAt(text: string, i: nat): (r: Option<nat>)
    requires i <= |text|
    ensures r.Some? ==> UrlMatch(text, i, r.value)
  {
    if i < |text| && (i == 0 || !IsWordChar(text[i - 1])) && 0 < SchemeLength(text, i) then
      var b := i + SchemeLength(text, i);
      LastEndBelow(text, b, BodyRunEnd(text, b))
    else None
  }

  /** No match at `i` is longer than the one found, and none is found only when there is none. */
  lemma MatchUrlAtIsLongest(text: string, i: nat)
    requires i <= |text|
    ensures MatchUrlAt(text, i).Some? ==> forall e: nat :: MatchUrlAt(text, i).value < e ==> !UrlMatch(text, i, e)
    ensures MatchUrlAt(text, i).None? ==> forall e: nat :: !UrlMatch(text, i, e)
  {
    if i < |text| && (i == 0 || !IsWordChar(text[i - 1])) && 0 < SchemeLength(text, i) {
      var b := i + SchemeLength(text, i);
      var j := BodyRunEnd(text, b);
      assert forall e: nat :: UrlMatch(text, i, e) ==> e <= j;
    }
  }

  /** A piece of the scanned text: a character outside any URL, or one matched URL. */
  datatype Piece = Plain(c: char) | Link(url: string)

  function PieceText(p: Piece): string
  {
    match p
    case Plain(c) => [c]
    case Link(url) => url
  }

  function Flatten(ps: seq<Piece>): string
  {
    if ps == [] then [] else PieceText(ps[0]) + Flatten(ps[1..])
  }

  /**
   * The global scan from `i`: at each position the longest match there is
   * taken and the scan resumes after it; otherwise one character is kept.
   * The pieces put back together give exactly the scanned text
   * (`ScanSpellsText`).
   */
  function Scan(text: string, i: nat): (ps: seq<Piece>)
    requires i <= |text|
    ensures |ps| <= |text| - i
    decreases |text| - i
  {
    if i == |text| then []
    else match MatchUrlAt(text, i)
      case Some(e) => [Link(text[i..e])] + Scan(text, e)
      case None => [Plain(text[i])] + Scan(text, i + 1)
  }

  /** The scanned pieces put back together are exactly the scanned text. */
  lemma {:induction false} ScanSpellsText(text: string, i: nat)
    requires i <= |text|
    ensures Flatten(Scan(text, i)) == text[i..]
    decreases |text| - i
  {
    if i < |text| {
      var next := ScanResume(text, i);
      ScanSpellsText(text, next);
      ScanSpellsStep(text, i);
    }
  }

  lemma ScanSpellsStep(text: string, i: nat)
    requires i < |text| && Flatten(Scan(text, ScanResume(text, i))) == text[ScanResume(text, i)..]
    ensures Flatten(Scan(text, i)) == text[i..]
  {
    ScanTail(text, i);
    FirstPieceText(text, i);
    SuffixSplit(text, i, ScanResume(text, i));
  }

  lemma SuffixSplit(text: string, i: nat, j: nat)
    requires i <= j <= |text|
    ensures text[i..] == text[i..j] + text[j..]
  {
  }

  /** The extensions of the image links `linkify` leaves alone. */
  const LinkImageExtensions: set<string> := {"jpeg", "jpg", "gif", "png", "svg"}

  /** The image links `linkify` leaves alone: `/\.(jpeg|jpg|gif|png|svg)$/i`. */
  function IsImageLink(url: string): (r: bool)
    ensures r <==> exists e :: e in LinkImageExtensions && EndsWithIgnoreCase(url, "." + e)
  {
    var r := || EndsWithIgnoreCase(url, ".jpeg") || EndsWithIgnoreCase(url, ".jpg")
             || EndsWithIgnoreCase(url, ".gif") || EndsWithIgnoreCase(url, ".png")
             || EndsWithIgnoreCase(url, ".svg");
    LinkExtensionAlternatives(url);
    r
  }

  /** The pattern's alternatives are the extensions of the set, each after a dot. */
  lemma LinkExtensionAlternatives(url: string)
    ensures (exists e :: e in LinkImageExtensions && EndsWithIgnoreCase(url, "." + e))
        <==> (|| EndsWithIgnoreCase(url, ".jpeg") || EndsWithIgnoreCase(url, ".jpg")
              || EndsWithIgnoreCase(url, ".gif") || EndsWithIgnoreCase(url, ".png")
              || EndsWithIgnoreCase(url, ".svg"))
  {
    assert "." + "jpeg" == ".jpeg" && "." + "jpg" == ".jpg" && "." + "gif" == ".gif";
    assert "." + "png" == ".png" && "." + "svg" == ".svg";
  }

  function Anchor(url: string): string
  {
    "<a href=\"" + url + "\" target=\"_blank\" class=\"linkified\">" + url + "</a>"
  }

  /**
   * One piece as the replacement callback writes it: its own text, except
   * that a link which is not an image link becomes its anchor.
   */
  function RenderPiece(p: Piece): (r: string)
    ensures r == PieceText(p) <==> p.Plain? || IsImageLink(p.url)
    ensures p.Link? && !IsImageLink(p.url) ==> r == Anchor(p.url) && |r| > |p.url|
  {
    match p
    case Plain(c) => [c]
    case Link(url) => if IsImageLink(url) then url else Anchor(url)
  }

  function Render(ps: seq<Piece>): string
  {
    if ps == [] then [] else RenderPiece(ps[0]) + Render(ps[1..])
  }

  function Linkify(text: string): string
  {
    Render(Scan(text, 0))
  }

  /** Pieces whose links are all image links render as the text they spell. */
  lemma {:induction false} RenderWithoutAnchors(ps: seq<Piece>)
    requires forall k :: 0 <= k < |ps| && ps[k].Link? ==> IsImageLink(ps[k].url)
    ensures Render(ps) == Flatten(ps)
  {
    if ps != [] {
      RenderWithoutAnchors(ps[1..]);
    }
  }

  /** No match anywhere from `i` means no link among the scanned pieces. */
  lemma {:induction false} ScanWithoutMatches(text: string, i: nat)
    requires i <= |text|
    requires forall s: nat, e: nat :: !UrlMatch(text, s, e)
    ensures forall k :: 0 <= k < |Scan(text, i)| ==> Scan(text, i)[k].Plain?
    decreases |text| - i
  {
    if i < |text| {
      ScanWithoutMatches(text, i + 1);
    }
  }

  /** Text in which the pattern matches nowhere comes back unchanged, markup included. */
  lemma LinkifyWithoutUrls(text: string)
    requires forall s: nat, e: nat :: !UrlMatch(text, s, e)
    ensures Linkify(text) == text
  {
    ScanWithoutMatches(text, 0);
    RenderWithoutAnchors(Scan(text, 0));
    ScanSpellsText(text, 0);
  }

  /** Every link among the scanned pieces is a match of the pattern at or after `i`. */
  lemma ScanLinksAreMatches(text: string, i: nat)
    requires i <= |text|
    ensures forall k :: 0 <= k < |Scan(text, i)| && Scan(text, i)[k].Link? ==>
      exists s: nat, e: nat :: i <= s && UrlMatch(text, s, e) && Scan(text, i)[k].url == text[s..e]
  {
    forall k | 0 <= k < |Scan(text, i)| && Scan(text, i)[k].Link?
      ensures exists s: nat, e: nat :: i <= s && UrlMatch(text, s, e) && Scan(text, i)[k].url == text[s..e]
    {
      var s, e := ScanLinkIsMatch(text, i, k);
      assert UrlMatch(text, s, e);
    }
  }

  /**
   * Piece `k` of the scan from `i` sits at its own offset `s`: the pieces
   * before it spell exactly `text[i..s]`, and it is the first piece of the
   * scan from `s`.
   */
  lemma {:induction false} ScanPieceOffset(text: string, i: nat, k: nat) returns (s: nat)
    requires i <= |text| && k < |Scan(text, i)|
    ensures i <= s < |text| && text[i..s] == Flatten(Scan(text, i)[..k])
    ensures 0 < |Scan(text, s)| && Scan(text, i)[k] == Scan(text, s)[0]
    decreases |text| - i
  {
    ScanEndsAtEnd(text, i);
    if k == 0 {
      s := i;
      ScanFirstPiece(text, i);
    } else {
      ScanTailIndex(text, i, k);
      s := ScanPieceOffset(text, ScanResume(text, i), k - 1);
      ScanPrefixStep(text, i, k, s);
    }
  }

  /**
   * The link at piece `k` of the scan from `i` is the longest match at its own
   * offset `s`: the pieces before it spell exactly `text[i..s]`.
   */
  lemma ScanLinkIsMatch(text: string, i: nat, k: nat) returns (s: nat, e: nat)
    requires i <= |text| && k < |Scan(text, i)| && Scan(text, i)[k].Link?
    ensures i <= s <= |text| && text[i..s] == Flatten(Scan(text, i)[..k])
    ensures MatchUrlAt(text, s) == Some(e) && Scan(text, i)[k] == Link(text[s..e])
  {
    s := ScanPieceOffset(text, i, k);
    ScanHead(text, s);
    e := MatchUrlAt(text, s).value;
  }

  /**
   * The plain piece `k` of the scan from `i` is the character at its own
   * offset `s`, where no match starts: the scan passes over no URL.
   */
  lemma ScanPlainHasNoMatch(text: string, i: nat, k: nat) returns (s: nat)
    requires i <= |text| && k < |Scan(text, i)| && Scan(text, i)[k].Plain?
    ensures i <= s < |text| && text[i..s] == Flatten(Scan(text, i)[..k])
    ensures MatchUrlAt(text, s).None? && Scan(text, i)[k] == Plain(text[s])
  {
    s := ScanPieceOffset(text, i, k);
    ScanHead(text, s);
  }

  /** A scan with a piece in it begins before the end of the text. */
  lemma ScanEndsAtEnd(text: string, i: nat)
    requires i <= |text| && 0 < |Scan(text, i)|
    ensures i < |text|
  {
  }

  /** The first piece of a scan sits where the scan begins. */
  lemma ScanFirstPiece(text: string, i: nat)
    requires i < |text|
    ensures text[i..i] == Flatten(Scan(text, i)[..0]) && 0 < |Scan(text, i)|
  {
    assert Scan(text, i)[..0] == [];
  }

  /** Piece `k` of the scan from `i` is piece `k - 1` of the scan where it resumes. */
  lemma ScanTailIndex(text: string, i: nat, k: nat)
    requires i < |text| && 0 < k < |Scan(text, i)|
    ensures k - 1 < |Scan(text, ScanResume(text, i))|
    ensures Scan(text, ScanResume(text, i))[k - 1] == Scan(text, i)[k]
  {
    ScanTail(text, i);
  }

  /** The text up to `s` is spelled by the first `k` pieces once it is from the resumption point. */
  lemma ScanPrefixStep(text: string, i: nat, k: nat, s: nat)
    requires i < |text| && 0 < k < |Scan(text, i)| && ScanResume(text, i) <= s <= |text|
    requires text[ScanResume(text, i)..s] == Flatten(Scan(text, ScanResume(text, i))[..k - 1])
    ensures text[i..s] == Flatten(Scan(text, i)[..k])
  {
    ScanTail(text, i);
    FirstPieceText(text, i);
    FlattenPrefixStep(Scan(text, i), k);
    SliceSplit(text, i, ScanResume(text, i), s);
  }

  lemma SliceSplit(text: string, i: nat, j: nat, s: nat)
    requires i <= j <= s <= |text|
    ensures text[i..s] == text[i..j] + text[j..s]
  {
  }

  /** The first `k` pieces spell the first piece's text and then the next `k - 1`. */
  lemma FlattenPrefixStep(ps: seq<Piece>, k: nat)
    requires 0 < k <= |ps|
    ensures Flatten(ps[..k]) == PieceText(ps[0]) + Flatten(ps[1..][..k - 1])
  {
    assert ps[..k][1..] == ps[1..][..k - 1];
  }

  /** Where the scan from `i < |text|` goes on: after the match at `i`, or at the next character. */
  function ScanResume(text: string, i: nat): (j: nat)
    requires i < |text|
    ensures i < j <= |text|
  {
    match MatchUrlAt(text, i)
    case Some(e) => e
    case None => i + 1
  }

  /** The first piece of the scan is the match at `i` when there is one, and otherwise the character there. */
  lemma ScanHead(text: string, i: nat)
    requires i < |text|
    ensures MatchUrlAt(text, i).Some? ==> Scan(text, i)[0] == Link(text[i..MatchUrlAt(text, i).value])
    ensures MatchUrlAt(text, i).None? ==> Scan(text, i)[0] == Plain(text[i])
  {
    if MatchUrlAt(text, i).Some? {
      ScanStepLink(text, i, MatchUrlAt(text, i).value);
    } else {
      ScanStepPlain(text, i);
    }
  }

  /** The first piece spells the text up to where the scan resumes. */
  lemma FirstPieceText(text: string, i: nat)
    requires i < |text|
    ensures PieceText(Scan(text, i)[0]) == text[i..ScanResume(text, i)]
  {
    ScanHead(text, i);
    if MatchUrlAt(text, i).None? {
      assert text[i..i + 1] == [text[i]];
    }
  }

  /** After its first piece the scan goes on as the scan from where it resumes. */
  lemma ScanTail(text: string, i: nat)
    requires i < |text|
    ensures Scan(text, i)[1..] == Scan(text, ScanResume(text, i))
  {
    if MatchUrlAt(text, i).Some? {
      ScanStepLink(text, i, MatchUrlAt(text, i).value);
    } else {
      ScanStepPlain(text, i);
    }
  }

  /** One step of the scan at a match ending at `e`. */
  lemma ScanStepLink(text: string, i: nat, e: nat)
    requires i < |text| && MatchUrlAt(text, i) == Some(e)
    ensures Scan(text, i) == [Link(text[i..e])] + Scan(text, e)
  {
  }

  /** One step of the scan where no match starts. */
  lemma ScanStepPlain(text: string, i: nat)
    requires i < |text| && MatchUrlAt(text, i).None?
    ensures Scan(text, i) == [Plain(text[i])] + Scan(text, i + 1)
  {
  }

  /** The plain pieces of the characters of `t`, in order. */
  function Plains(t: string): (ps: seq<Piece>)
    ensures |ps| == |t| && forall k :: 0 <= k < |t| ==> ps[k] == Plain(t[k])
  {
    if t == [] then [] else [Plain(t[0])] + Plains(t[1..])
  }

  /** Where no match starts between `i` and `a`, the scan keeps those characters one by one. */
  lemma {:induction false} ScanPlainRun(text: string, i: nat, a: nat)
    requires i <= a <= |text|
    requires forall s :: i <= s < a ==> MatchUrlAt(text, s).None?
    ensures Scan(text, i) == Plains(text[i..a]) + Scan(text, a)
    decreases a - i
  {
    if i < a {
      ScanPlainRun(text, i + 1, a);
      ScanPlainRunStep(text, i, a);
    } else {
      assert Plains(text[i..a]) == [];
    }
  }

  /** One more plain character in front of a run. */
  lemma ScanPlainRunStep(text: string, i: nat, a: nat)
    requires i < a <= |text| && MatchUrlAt(text, i).None?
    requires Scan(text, i + 1) == Plains(text[i + 1..a]) + Scan(text, a)
    ensures Scan(text, i) == Plains(text[i..a]) + Scan(text, a)
  {
    ScanStepPlain(text, i);
    PlainsStep(text, i, a);
    ConsChain(Scan(text, i), Plain(text[i]), Scan(text, i + 1), Plains(text[i + 1..a]), Scan(text, a), Plains(text[i..a]));
  }

  /** The plain pieces of `text[i..a]` are that of `text[i]` and then those of `text[i + 1..a]`. */
  lemma PlainsStep(text: string, i: nat, a: nat)
    requires i < a <= |text|
    ensures Plains(text[i..a]) == [Plain(text[i])] + Plains(text[i + 1..a])
  {
    assert text[i..a][1..] == text[i + 1..a];
  }

  /** Putting a piece in front of a list that splits in two. */
  lemma ConsChain(whole: seq<Piece>, p: Piece, tail: seq<Piece>, front: seq<Piece>, back: seq<Piece>, head: seq<Piece>)
    requires whole == [p] + tail && tail == front + back && head == [p] + front
    ensures whole == head + back
  {
  }

  lemma {:induction false} RenderAppend(xs: seq<Piece>, ys: seq<Piece>)
    ensures Render(xs + ys) == Render(xs) + Render(ys)
  {
    if xs != [] {
      RenderAppend(xs[1..], ys);
      RenderAppendStep(xs, ys);
    } else {
      assert xs + ys == ys;
    }
  }

  lemma RenderAppendStep(xs: seq<Piece>, ys: seq<Piece>)
    requires xs != [] && Render(xs[1..] + ys) == Render(xs[1..]) + Render(ys)
    ensures Render(xs + ys) == Render(xs) + Render(ys)
  {
    var p, rest := xs[0], xs[1..];
    ConsSplit(xs, ys);
    RenderCons(p, rest + ys);
    RenderCons(p, rest);
    StringAssoc(RenderPiece(p), Render(rest), Render(ys));
  }

  lemma ConsSplit(xs: seq<Piece>, ys: seq<Piece>)
    requires xs != []
    ensures xs == [xs[0]] + xs[1..] && xs + ys == [xs[0]] + (xs[1..] + ys)
  {
  }

  lemma RenderCons(p: Piece, zs: seq<Piece>)
    ensures Render([p] + zs) == RenderPiece(p) + Render(zs)
  {
    assert ([p] + zs)[0] == p;
    assert ([p] + zs)[1..] == zs;
  }

  lemma StringAssoc(a: string, b: string, c: string)
    ensures a + (b + c) == (a + b) + c
  {
  }

  lemma {:induction false} RenderPlains(t: string)
    ensures Render(Plains(t)) == t
  {
    if t != [] {
      assert Plains(t)[1..] == Plains(t[1..]);
      RenderPlains(t[1..]);
      assert t == [t[0]] + t[1..];
    }
  }

  /**
   * A URL with text around it: when no match starts before `a` and the
   * longest match at `a` ends at `e` and is no image link, the text before it
   * is kept, the URL is wrapped in its anchor, and the rest is linkified from `e`.
   */
  lemma LinkifyWrapsUrl(text: string, a: nat, e: nat)
    requires a < |text| && MatchUrlAt(text, a) == Some(e) && !IsImageLink(text[a..e])
    requires forall s :: 0 <= s < a ==> MatchUrlAt(text, s).None?
    ensures Linkify(text) == text[..a] + Anchor(text[a..e]) + Render(Scan(text, e))
  {
    ScanPlainRun(text, 0, a);
    ScanStepLink(text, a, e);
    RenderPlainsThenLink(text[..a], text[a..e], Scan(text, e));
    assert text[0..a] == text[..a];
  }

  /** A URL after a word: "see http://x" keeps "see " and wraps the URL. */
  lemma LinkifyAfterWordExample()
    ensures Linkify("see http://x") == "see " + Anchor("http://x")
  {
    NoUrlInWord();
    UrlAfterWord();
    SeeHttpXHalves();
    NotImageAfterX("http://x");
    LinkifyUrlAtEnd("see http://x", 4);
  }

  /** The halves of "see http://x" around its URL. */
  lemma SeeHttpXHalves()
    ensures "see http://x"[..4] == "see " && "see http://x"[4..] == "http://x"
  {
  }

  /** A URL that runs to the end of the text, with no match before it. */
  lemma LinkifyUrlAtEnd(text: string, a: nat)
    requires a < |text| && MatchUrlAt(text, a) == Some(|text|) && !IsImageLink(text[a..])
    requires forall s :: 0 <= s < a ==> MatchUrlAt(text, s).None?
    ensures Linkify(text) == text[..a] + Anchor(text[a..])
  {
    assert text[a..|text|] == text[a..];
    LinkifyWrapsUrl(text, a, |text|);
    assert Render(Scan(text, |text|)) == [];
  }

  /** No match starts in "see " of "see http://x". */
  lemma NoUrlInWord()
    ensures forall s :: 0 <= s < 4 ==> MatchUrlAt("see http://x", s).None?
  {
    forall s | 0 <= s < 4
      ensures MatchUrlAt("see http://x", s).None?
    {
      NoSchemeAt("see http://x", s);
    }
  }

  /** The URL of "see http://x" is its last eight characters. */
  lemma UrlAfterWord()
    ensures MatchUrlAt("see http://x", 4) == Some(12)
  {
    var text := "see http://x";
    assert LowerChar(text[4 + 4]) != "https://"[4];
    assert HasWordAt(text, 4, "http://");
    assert BodyRunEnd(text, 12) == 12;
    assert BodyRunEnd(text, 11) == 12;
  }

  /** No match starts at a character other than `h` or `f`, in either case. */
  lemma NoSchemeAt(text: string, i: nat)
    requires i < |text| && LowerChar(text[i]) != 'h' && LowerChar(text[i]) != 'f'
    ensures MatchUrlAt(text, i).None?
  {
    assert LowerChar(text[i + 0]) != "https://"[0] && LowerChar(text[i + 0]) != "http://"[0];
    assert LowerChar(text[i + 0]) != "ftp://"[0] && LowerChar(text[i + 0]) != "file://"[0];
  }

  /** A URL whose last character is `x` is no image link: every extension ends in another letter. */
  lemma NotImageAfterX(url: string)
    requires 0 < |url| && url[|url| - 1] == 'x'
    ensures !IsImageLink(url)
  {
    LastCharDiffers(url, ".jpeg");
    LastCharDiffers(url, ".jpg");
    LastCharDiffers(url, ".gif");
    LastCharDiffers(url, ".png");
    LastCharDiffers(url, ".svg");
  }

  lemma LastCharDiffers(s: string, suffix: string)
    requires 0 < |s| && 0 < |suffix| && LowerChar(s[|s| - 1]) != LowerChar(suffix[|suffix| - 1])
    ensures !EndsWithIgnoreCase(s, suffix)
  {
    if |suffix| <= |s| {
      var k := |suffix| - 1;
      assert LowerChar(s[|s| - |suffix| + k]) != LowerChar(suffix[k]);
    }
  }

  /** Plain characters, then a link that is no image link, then anything. */
  lemma RenderPlainsThenLink(pre: string, url: string, rest: seq<Piece>)
    requires !IsImageLink(url)
    ensures Render(Plains(pre) + ([Link(url)] + rest)) == pre + Anchor(url) + Render(rest)
  {
    RenderAppend(Plains(pre), [Link(url)] + rest);
    RenderAppend([Link(url)], rest);
    RenderPlains(pre);
    RenderOneLink(url);
  }

  /** Text in which every match is an image link comes back unchanged. */
  lemma LinkifyImagesOnly(text: string)
    requires forall s: nat, e: nat :: UrlMatch(text, s, e) ==> IsImageLink(text[s..e])
    ensures Linkify(text) == text
  {
    ScanLinksAreMatches(text, 0);
    RenderWithoutAnchors(Scan(text, 0));
    ScanSpellsText(text, 0);
  }

  /** A message that is one URL, not an image link, becomes one anchor around it. */
  lemma LinkifyWholeUrl(text: string)
    requires UrlMatch(text, 0, |text|) && !IsImageLink(text)
    ensures Linkify(text) == Anchor(text)
  {
    ScanWholeUrl(text);
    RenderOneLink(text);
  }

  lemma ScanWholeUrl(text: string)
    requires UrlMatch(text, 0, |text|)
    ensures Scan(text, 0) == [Link(text)]
  {
    var r := MatchUrlAt(text, 0);
    assert r.Some?;
    assert !(r.value < |text|);
    assert r.value == |text|;
    assert text[0..|text|] == text;
    assert Scan(text, 0) == [Link(text)] + Scan(text, |text|);
  }

  lemma RenderOneLink(url: string)
    requires !IsImageLink(url)
    ensures Render([Link(url)]) == Anchor(url)
  {
    assert [Link(url)][1..] == [];
  }
}
