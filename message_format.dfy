/** How a chat message is classified and its time shown. */
module MessageFormat {
  import opened JsText
  import opened Decimal

  /** `url.split("?")[0]`: the text before the first '?', or all of it. */
  function BeforeQuery(url: string): (r: string)
    ensures r <= url && '?' !in r
    ensures |r| < |url| ==> url[|r|] == '?'
  {
    if url == [] || url[0] == '?' then [] else [url[0]] + BeforeQuery(url[1..])
  }

  /** The extensions the pattern `\.(gif|jpe?g|tiff?|png|webp|bmp)$` spells out. */
  const ImageExtensions: set<string> := {"gif", "jpg", "jpeg", "tif", "tiff", "png", "webp", "bmp"}

  /**
   * A message is shown as an image when the part before its query string ends
   * in a dot and one of the image extensions, in any mix of upper and lower case.
   */
  function IsImageUrl(url: string): (r: bool)
    ensures r <==> exists e :: e in ImageExtensions && EndsWithIgnoreCase(BeforeQuery(url), "." + e)
  {
    var b := BeforeQuery(url);
    var r := EndsWithIgnoreCase(b, ".gif")
      || EndsWithIgnoreCase(b, ".jpg") || EndsWithIgnoreCase(b, ".jpeg")
      || EndsWithIgnoreCase(b, ".tif") || EndsWithIgnoreCase(b, ".tiff")
      || EndsWithIgnoreCase(b, ".png") || EndsWithIgnoreCase(b, ".webp") || EndsWithIgnoreCase(b, ".bmp");
    ExtensionAlternatives(b);
    r
  }

  /** The pattern's alternatives are the extensions of the set, each after a dot. */
  lemma ExtensionAlternatives(b: string)
    ensures (exists e :: e in ImageExtensions && EndsWithIgnoreCase(b, "." + e))
        <==> (|| EndsWithIgnoreCase(b, ".gif")
              || EndsWithIgnoreCase(b, ".jpg") || EndsWithIgnoreCase(b, ".jpeg")
              || EndsWithIgnoreCase(b, ".tif") || EndsWithIgnoreCase(b, ".tiff")
              || EndsWithIgnoreCase(b, ".png") || EndsWithIgnoreCase(b, ".webp") || EndsWithIgnoreCase(b, ".bmp"))
  {
    assert "." + "gif" == ".gif" && "." + "jpg" == ".jpg" && "." + "jpeg" == ".jpeg";
    assert "." + "tif" == ".tif" && "." + "tiff" == ".tiff" && "." + "png" == ".png";
    assert "." + "webp" == ".webp" && "." + "bmp" == ".bmp";
  }

  /** The query string never decides: appending one to a path leaves the verdict as it was. */
  lemma {:induction false} QueryStringIgnored(path: string, query: string)
    requires '?' !in path
    ensures IsImageUrl(path + "?" + query) == IsImageUrl(path)
  {
    BeforeQueryOfPath(path, query);
    assert BeforeQuery(path) == path by { BeforeQueryOfPath(path, []); assert path + "?" + [] == path + "?"; BeforeQueryPrefix(path); }
  }

  lemma {:induction false} BeforeQueryOfPath(path: string, query: string)
    requires '?' !in path
    ensures BeforeQuery(path + "?" + query) == path
  {
    if path != [] {
      assert (path + "?" + query)[1..] == path[1..] + "?" + query;
      BeforeQueryOfPath(path[1..], query);
    }
  }

  lemma {:induction false} BeforeQueryPrefix(path: string)
    requires '?' !in path
    ensures BeforeQuery(path) == path
  {
    if path != [] {
      BeforeQueryPrefix(path[1..]);
    }
  }

  lemma ImageUrlExample()
    ensures IsImageUrl("a.JPG?w=2")
  {
    BeforeQueryOfPath("a.JPG", "w=2");
    assert "a.JPG?w=2" == "a.JPG" + "?" + "w=2";
    UpperCaseJpg();
    ImageByExtension("a.JPG?w=2", "jpg");
  }

  /** The upper-case extension matches `.jpg` under case folding. */
  lemma UpperCaseJpg()
    ensures EndsWithIgnoreCase("a.JPG", "." + "jpg")
  {
    assert "." + "jpg" == ".jpg";
  }

  /** A URL whose part before the query ends in a dot and one of the extensions is an image URL. */
  lemma ImageByExtension(url: string, e: string)
    requires e in ImageExtensions && EndsWithIgnoreCase(BeforeQuery(url), "." + e)
    ensures IsImageUrl(url)
  {
  }

  lemma QueryOnlyImageExample()
    ensures !IsImageUrl("p?a.png")
  {
    BeforeQueryOfPath("p", "a.png");
    assert "p?a.png" == "p" + "?" + "a.png";
  }

  /** `n.toString().padStart(2, "0")`. */
  function Pad2(n: nat): (r: string)
    ensures 2 <= |r| && AllDigits(r)
    ensures 10 <= n ==> r == NatToString(n)
  {
    PadStart2(NatToString(n))
  }

  lemma Pad2RoundTrip(n: nat)
    requires n < 100
    ensures |Pad2(n)| == 2 && AllDigits(Pad2(n)) && Value(Pad2(n)) == n
  {
    ValueOfNatToString(n);
    var s := NatToString(n);
    if n < 10 {
      assert |s| == 1;
      ValueIgnoresLeadingZero(s);
    } else {
      assert |s| == 2 by {
        assert NatToString(n / 10) == [DigitChar(n / 10)];
      }
    }
  }

  /**
   * `formatTimestamp` on the fields of a date: day of the month, zero-based
   * month, full year, hours and minutes, rendered as "DD/MM/YYYY HH:mm".
   */
  function FormatTimestamp(day: nat, month: nat, year: int, hours: nat, minutes: nat): (r: string)
    ensures |r| == |Pad2(day)| + |Pad2(month + 1)| + |IntToString(year)| + |Pad2(hours)| + |Pad2(minutes)| + 4
  {
    Pad2(day) + "/" + Pad2(month + 1) + "/" + IntToString(year) + " " + Pad2(hours) + ":" + Pad2(minutes)
  }

  /**
   * With every field below 100 (as a date's day, month, hours and minutes
   * are) the layout is fixed: two digits, '/', two digits, '/', the year,
   * ' ', two digits, ':', two digits, and each two-digit group reads back as
   * its field, the month counted from one.
   */
  lemma FormatTimestampLayout(day: nat, month: nat, year: int, hours: nat, minutes: nat)
    requires day < 100 && month < 99 && hours < 100 && minutes < 100
    ensures var r := FormatTimestamp(day, month, year, hours, minutes);
            var y := IntToString(year);
            && |r| == |y| + 12
            && r[2] == '/' && r[5] == '/' && r[6 + |y|] == ' ' && r[9 + |y|] == ':'
            && r[6..6 + |y|] == y
            && AllDigits(r[..2]) && Value(r[..2]) == day
            && AllDigits(r[3..5]) && Value(r[3..5]) == month + 1
            && AllDigits(r[7 + |y|..9 + |y|]) && Value(r[7 + |y|..9 + |y|]) == hours
            && AllDigits(r[10 + |y|..]) && Value(r[10 + |y|..]) == minutes
  {
    Pad2RoundTrip(day);
    Pad2RoundTrip(month + 1);
    Pad2RoundTrip(hours);
    Pad2RoundTrip(minutes);
    FieldsOfLayout(Pad2(day), Pad2(month + 1), IntToString(year), Pad2(hours), Pad2(minutes));
  }

  /** Where the five fields sit in `a/b/y c:d` when `a`, `b`, `c` and `d` have two characters each. */
  lemma FieldsOfLayout(a: string, b: string, y: string, c: string, d: string)
    requires |a| == 2 && |b| == 2 && |c| == 2 && |d| == 2
    ensures var r := a + "/" + b + "/" + y + " " + c + ":" + d;
            && |r| == |y| + 12
            && r[2] == '/' && r[5] == '/' && r[6 + |y|] == ' ' && r[9 + |y|] == ':'
            && r[..2] == a && r[3..5] == b && r[6..6 + |y|] == y
            && r[7 + |y|..9 + |y|] == c && r[10 + |y|..] == d
  {
    var r := a + "/" + b + "/" + y + " " + c + ":" + d;
    assert r[..2] == a;
    assert r[3..5] == b;
    assert r[6..6 + |y|] == y;
    assert r[7 + |y|..9 + |y|] == c;
    assert r[10 + |y|..] == d;
  }

  /** A one-digit field gets one leading zero. */
  lemma Pad2OneDigit(n: nat)
    requires n < 10
    ensures Pad2(n) == ['0', DigitChar(n)]
  {
  }

  lemma YearExample()
    ensures IntToString(2024) == "2024"
  {
    assert NatToString(20) == "20";
    assert NatToString(202) == "202";
  }

  lemma TimestampExample()
    ensures FormatTimestamp(5, 0, 2024, 9, 7) == "05/01/2024 09:07"
  {
    Pad2OneDigit(5);
    Pad2OneDigit(1);
    Pad2OneDigit(9);
    Pad2OneDigit(7);
    YearExample();
  }
}
