/**
 The product record and the normalisers that turn the raw text read from
 one product tile into its typed fields: price, availability, image URL
 and description, plus the two constant fields.
 */
module Fields {
  import opened Optional
  import opened Text

  /** The template segment in a tile's `data-master` image URL. */
  const Placeholder := "{width}x"
  /** What the template segment is replaced with. */
  const TargetWidth := "1024x"
  /** The scheme put in front of a protocol-relative image URL. */
  const Scheme := "https:"
  /** Every record of this harvest gets the same category. */
  const Category := "All Products"

  datatype Availability = InStock | SoldOut | Unknown

  /** The text stored in the record for an availability. */
  function Label(a: Availability): string
  {
    match a
    case InStock => "In Stock"
    case SoldOut => "Sold Out"
    case Unknown => "Unknown"
  }

  /**
   What the page shows for one product tile. Each field is `None` when the
   element it is read from is missing (for the image, also when the
   `data-master` attribute is missing).
   */
  datatype RawItem = RawItem(
    name: Option<string>,
    salePrice: Option<string>,
    regularPrice: Option<string>,
    description: Option<string>,
    availability: Option<string>,
    imageMaster: Option<string>)

  /**
   One harvested record. `price` holds the cleaned numeral that Python's
   `float()` accepted (its value is that decimal numeral); `rating` is
   always absent.
   */
  datatype Product = Product(
    name: string,
    price: Option<string>,
    description: Option<string>,
    rating: Option<real>,
    category: string,
    availability: Option<Availability>,
    imageUrl: Option<string>)

  // ---------------------------------------------------------------- price

  predicate IsDigit(c: char)
  {
    '0' <= c <= '9'
  }

  /** The characters that price cleaning keeps: digits and the decimal point. */
  predicate Kept(c: char)
  {
    IsDigit(c) || c == '.'
  }

  predicate AllKept(s: string)
  {
    forall i :: 0 <= i < |s| ==> Kept(s[i])
  }

  predicate AllDigits(s: string)
  {
    forall i :: 0 <= i < |s| ==> IsDigit(s[i])
  }

  /** Deletes every character that is not a digit or a decimal point. */
  function Clean(s: string): (r: string)
    ensures AllKept(r) && |r| <= |s|
    decreases |s|
  {
    if s == [] then [] else (if Kept(s[0]) then [s[0]] else []) + Clean(s[1..])
  }

  /** Cleaning keeps every digit and point with its multiplicity and nothing else. */
  lemma {:induction false} CleanKeepsExactly(s: string)
    ensures forall c :: multiset(Clean(s))[c] == if Kept(c) then multiset(s)[c] else 0
    decreases |s|
  {
    if s != [] {
      CleanKeepsExactly(s[1..]);
      assert s == [s[0]] + s[1..];
      assert multiset(s) == multiset{s[0]} + multiset(s[1..]);
    }
  }

  /** Cleaning works piecewise: it commutes with concatenation. */
  lemma {:induction false} CleanConcat(a: string, b: string)
    ensures Clean(a + b) == Clean(a) + Clean(b)
    decreases |a|
  {
    if a == [] {
      assert a + b == b;
    } else {
      assert (a + b)[0] == a[0] && (a + b)[1..] == a[1..] + b;
      CleanConcat(a[1..], b);
    }
  }

  /** A string of digits and points is left as it is. */
  lemma {:induction false} CleanKeepsKept(s: string)
    requires AllKept(s)
    ensures Clean(s) == s
    decreases |s|
  {
    if s != [] {
      CleanKeepsKept(s[1..]);
    }
  }

  /** A string with no digit or point is cleaned away entirely. */
  lemma {:induction false} CleanDropsOthers(s: string)
    requires forall i :: 0 <= i < |s| ==> !Kept(s[i])
    ensures Clean(s) == []
    decreases |s|
  {
    if s != [] {
      CleanDropsOthers(s[1..]);
    }
  }

  function Count(s: string, c: char): (n: nat)
    ensures n <= |s|
    decreases |s|
  {
    if s == [] then 0 else (if s[0] == c then 1 else 0) + Count(s[1..], c)
  }

  lemma {:induction false} CountConcat(a: string, b: string, c: char)
    ensures Count(a + b, c) == Count(a, c) + Count(b, c)
    decreases |a|
  {
    if a == [] {
      assert a + b == b;
    } else {
      assert (a + b)[0] == a[0] && (a + b)[1..] == a[1..] + b;
      CountConcat(a[1..], b, c);
    }
  }

  /** In a string of digits and points, being all digits is having no point. */
  lemma {:induction false} DigitsIffNoPoint(s: string)
    requires AllKept(s)
    ensures AllDigits(s) <==> Count(s, '.') == 0
    decreases |s|
  {
    if s != [] {
      DigitsIffNoPoint(s[1..]);
      assert AllDigits(s) <==> IsDigit(s[0]) && AllDigits(s[1..]);
    }
  }

  /** The index of the first decimal point, or `|s|` when there is none. */
  function FirstPoint(s: string): (k: nat)
    ensures k <= |s| && (k < |s| ==> s[k] == '.')
    ensures forall i :: 0 <= i < k ==> s[i] != '.'
    decreases |s|
  {
    if s == [] || s[0] == '.' then 0 else 1 + FirstPoint(s[1..])
  }

  /** The first point of `a + b`, when `a` has none and `b` starts with one, is at `|a|`. */
  lemma {:induction false} FirstPointAt(a: string, b: string)
    requires AllDigits(a) && |b| > 0 && b[0] == '.'
    ensures FirstPoint(a + b) == |a|
    decreases |a|
  {
    if a != [] {
      assert (a + b)[1..] == a[1..] + b;
      FirstPointAt(a[1..], b);
    }
  }

  /**
   Whether Python's `float()` accepts a string made of digits and points:
   its grammar for such strings is `digits ["." [digits]] | "." digits`.
   */
  predicate FloatSyntax(s: string)
  {
    var k := FirstPoint(s);
    AllDigits(s[..k]) &&
    if k == |s| then k > 0 else AllDigits(s[k + 1..]) && |s| > 1
  }

  /**
   A valid price numeral: digits and points only, at most one point, and
   at least one digit (some character that is not the point).
   */
  predicate ValidNumeral(s: string)
  {
    AllKept(s) && Count(s, '.') <= 1 && Count(s, '.') < |s|
  }

  /** In cleaned text, everything before the first point is a digit. */
  lemma DigitsBeforeFirstPoint(s: string)
    requires AllKept(s)
    ensures AllDigits(s[..FirstPoint(s)])
  {
  }

  /** The points of a string are the first one (if any) plus those after it. */
  lemma {:induction false} PointsAroundFirst(s: string)
    ensures var k := FirstPoint(s);
      Count(s, '.') == if k < |s| then 1 + Count(s[k + 1..], '.') else 0
    decreases |s|
  {
    if s != [] && s[0] != '.' {
      PointsAroundFirst(s[1..]);
      var k := FirstPoint(s[1..]);
      if k < |s| - 1 {
        assert s[1..][k + 1..] == s[k + 2..];
      }
    }
  }

  /** On cleaned strings, `float()`'s grammar and the counting rule agree. */
  lemma FloatSyntaxIffValid(s: string)
    requires AllKept(s)
    ensures FloatSyntax(s) <==> ValidNumeral(s)
  {
    DigitsBeforeFirstPoint(s);
    PointsAroundFirst(s);
    var k := FirstPoint(s);
    if k < |s| {
      assert AllKept(s[k + 1..]);
      DigitsIffNoPoint(s[k + 1..]);
    }
  }

  /**
   `parse_price`: no text or empty text gives no price; otherwise the text
   is cleaned and the cleaned numeral is the price exactly when `float()`
   accepts it.
   */
  function ParsePrice(raw: Option<string>): (r: Option<string>)
    ensures raw.None? || raw == Some("") ==> r.None?
    ensures raw.Some? && raw.value != "" ==> (r.Some? <==> ValidNumeral(Clean(raw.value)))
    ensures r.Some? ==> raw.Some? && r.value == Clean(raw.value) && ValidNumeral(r.value)
  {
    if raw.None? || raw.value == "" then None
    else
      var c := Clean(raw.value);
      FloatSyntaxIffValid(c);
      if FloatSyntax(c) then Some(c) else None
  }

  /** A price numeral parses back to itself. */
  lemma ParsePriceStable(raw: Option<string>)
    ensures ParsePrice(raw).Some? ==> ParsePrice(ParsePrice(raw)) == ParsePrice(raw)
  {
    var r := ParsePrice(raw);
    if r.Some? {
      CleanKeepsKept(r.value);
    }
  }

  /** Cleaning a price written as sign, digits, separator, digits keeps the two digit runs. */
  lemma CleanPieces(sign: string, high: string, sep: string, low: string)
    requires forall i :: 0 <= i < |sign| ==> !Kept(sign[i])
    requires forall i :: 0 <= i < |sep| ==> !Kept(sep[i])
    requires AllKept(high) && AllKept(low)
    ensures Clean(sign + high + sep + low) == high + low
  {
    assert Clean(sign + high) == high by {
      CleanDropsOthers(sign);
      CleanKeepsKept(high);
      CleanConcat(sign, high);
    }
    assert Clean(sign + high + sep) == high by {
      CleanDropsOthers(sep);
      CleanConcat(sign + high, sep);
    }
    CleanKeepsKept(low);
    CleanConcat(sign + high + sep, low);
  }

  /** Digits, a point and digits make a numeral `float()` accepts. */
  lemma FloatSyntaxSplit(high: string, low: string)
    requires AllDigits(high) && AllDigits(low) && |high| + |low| > 0
    ensures FloatSyntax(high + "." + low)
  {
    var s := high + "." + low;
    FirstPointAt(high, "." + low);
    assert s == high + ("." + low);
    assert s[..|high|] == high && s[|high| + 1..] == low;
  }

  /** Non-empty text whose cleaned form `float()` accepts parses to that form. */
  lemma ParsePriceAccepts(raw: string, numeral: string)
    requires raw != "" && Clean(raw) == numeral && FloatSyntax(numeral)
    ensures ParsePrice(Some(raw)) == Some(numeral)
  {
  }

  /**
   A price written as a sign, digits, a thousands separator, digits, a
   point and digits parses to the digits around the point.
   */
  lemma ParsePriceGrouped(sign: string, high: string, sep: string, mid: string, frac: string)
    requires forall i :: 0 <= i < |sign| ==> !Kept(sign[i])
    requires forall i :: 0 <= i < |sep| ==> !Kept(sep[i])
    requires AllDigits(high) && AllDigits(mid) && AllDigits(frac) && |high| + |mid| > 0
    ensures ParsePrice(Some(sign + high + sep + (mid + "." + frac))) == Some(high + mid + "." + frac)
  {
    var low := mid + "." + frac;
    assert AllKept(low);
    CleanPieces(sign, high, sep, low);
    assert high + low == (high + mid) + "." + frac;
    FloatSyntaxSplit(high + mid, frac);
    ParsePriceAccepts(sign + high + sep + low, (high + mid) + "." + frac);
  }

  /** The thousands separator and the currency sign are dropped. */
  lemma ParsePriceExample()
    ensures ParsePrice(Some("$12,345.67")) == Some("12345.67")
  {
    assert "$12,345.67" == "$" + "12" + "," + ("345" + "." + "67");
    ParsePriceGrouped("$", "12", ",", "345", "67");
    assert "12" + "345" + "." + "67" == "12345.67";
  }

  /** A point left behind by an abbreviation counts as the decimal point. */
  lemma ParsePriceAbbreviation()
    ensures ParsePrice(Some("Rs. 40")) == Some(".40")
  {
    assert "Rs. 40" == "Rs" + "." + " " + "40";
    CleanPieces("Rs", ".", " ", "40");
    assert "." + "40" == "" + "." + "40" == ".40";
    FloatSyntaxSplit("", "40");
    ParsePriceAccepts("Rs. 40", ".40");
  }

  /** Text with no digit, or with two points, has no price. */
  lemma ParsePriceRejects()
    ensures ParsePrice(Some("Free")) == None
    ensures ParsePrice(Some("1.2.3")) == None
    ensures ParsePrice(Some("")) == None && ParsePrice(None) == None
  {
    CleanDropsOthers("Free");
    CleanKeepsKept("1.2.3");
    assert "1.2.3" == "1" + "." + "2" + "." + "3";
    CountConcat("1.2", ".3", '.');
    CountConcat("1", ".2", '.');
  }

  /**
   The price text of a tile: the sale price element's text when that
   element exists (even if its text is empty), else the regular price
   element's text, else none.
   */
  function PriceText(it: RawItem): (t: Option<string>)
    ensures it.salePrice.Some? ==> t == it.salePrice
    ensures it.salePrice.None? ==> t == it.regularPrice
  {
    if it.salePrice.Some? then it.salePrice else it.regularPrice
  }

  // --------------------------------------------------------- availability

  /**
   Availability from the status text: "In Stock" if the text contains
   "In Stock", else "Sold Out" if it contains "Sold Out", else "Unknown";
   no element or empty text gives none.
   */
  function Classify(text: Option<string>): (r: Option<Availability>)
    ensures r.None? <==> text.None? || text == Some("")
    ensures r == Some(InStock) <==> text.Some? && Contains(text.value, "In Stock")
    ensures r == Some(SoldOut) <==>
      text.Some? && !Contains(text.value, "In Stock") && Contains(text.value, "Sold Out")
    ensures r == Some(Unknown) <==>
      text.Some? && text.value != "" &&
      !Contains(text.value, "In Stock") && !Contains(text.value, "Sold Out")
  {
    if text.None? || text.value == "" then None
    else if Contains(text.value, "In Stock") then Some(InStock)
    else if Contains(text.value, "Sold Out") then Some(SoldOut)
    else Some(Unknown)
  }

  /** The label of a classification is what the page text was matched against. */
  lemma ClassifyLabel(t: string)
    requires Classify(Some(t)) == Some(InStock) || Classify(Some(t)) == Some(SoldOut)
    ensures Contains(t, Label(Classify(Some(t)).value))
  {
  }

  lemma ClassifyInStockExample()
    ensures Classify(Some("In Stock Ready to ship")) == Some(InStock)
  {
    assert IsPrefix("In Stock", "In Stock Ready to ship");
  }

  lemma ClassifySoldOutExample()
    ensures Classify(Some("Currently Sold Out")) == Some(SoldOut)
  {
    ContainsAt("Currently Sold Out", "Sold Out", 10);
    MissingFirstChar("Currently Sold Out", "In Stock");
  }

  /** "In Stock" is checked first, so it wins when both phrases occur. */
  lemma ClassifyBothExample()
    ensures Classify(Some("Sold Out, In Stock soon")) == Some(InStock)
  {
    ContainsAt("Sold Out, In Stock soon", "In Stock", 10);
  }

  lemma ClassifyUnknownExample()
    ensures Classify(Some("Pre-order")) == Some(Unknown)
  {
    MissingFirstChar("Pre-order", "In Stock");
    MissingFirstChar("Pre-order", "Sold Out");
  }

  // ------------------------------------------------------------ image URL

  /**
   The image URL from the `data-master` attribute: every `{width}x` becomes
   `1024x`, and `https:` is put in front when the result does not already
   start with `http`. No attribute, or an empty one, gives none.
   */
  function ImageUrl(master: Option<string>): (r: Option<string>)
    ensures r.None? <==> master.None? || master == Some("")
    ensures r.Some? ==> IsPrefix("http", r.value) && !Contains(r.value, Placeholder)
    ensures r.Some? ==>
      var u := ReplaceAll(master.value, Placeholder, TargetWidth);
      (r.value == u <==> IsPrefix("http", u)) && (r.value != u ==> r.value == Scheme + u)
    ensures (master.Some? && IsPrefix("http", master.value) &&
             !Contains(master.value, Placeholder)) ==> r == master
  {
    if master.None? || master.value == "" then None
    else
      var u := ReplaceAll(master.value, Placeholder, TargetWidth);
      ReplaceAllRemoves(master.value, Placeholder, TargetWidth);
      if IsPrefix("http", u) then Some(u)
      else
        PrefixKeepsAbsent(Scheme, u, Placeholder);
        Some(Scheme + u)
  }

  /** Normalising an already normalised URL changes nothing. */
  lemma ImageUrlIdempotent(master: Option<string>)
    ensures ImageUrl(ImageUrl(master)) == ImageUrl(master)
  {
  }

  /**
   Every `{width}x` of the attribute becomes `1024x` and the text between
   the placeholders is kept: for an attribute cut at its placeholders into
   pieces without `{`, the URL is the same pieces joined by `1024x`, with
   `https:` in front unless that already starts with `http`.
   */
  lemma ImageUrlRewrites(ws: seq<string>)
    requires forall k :: 0 <= k < |ws| ==> '{' !in ws[k]
    requires Join(ws, Placeholder) != ""
    ensures var u := Join(ws, TargetWidth);
      ImageUrl(Some(Join(ws, Placeholder))) == Some(if IsPrefix("http", u) then u else Scheme + u)
  {
    assert Placeholder[0] == '{';
    ReplaceAllJoin(ws, Placeholder, TargetWidth);
  }

  /** A protocol-relative template with one placeholder becomes an absolute 1024-wide URL. */
  lemma ImageUrlTemplate(front: string, back: string)
    requires IsPrefix("//", front) && '{' !in front && '{' !in back
    ensures ImageUrl(Some(front + Placeholder + back)) == Some(Scheme + front + TargetWidth + back)
  {
    var m := front + Placeholder + back;
    assert m == front + (Placeholder + back);
    ReplaceAllSkips(front, Placeholder + back, Placeholder, TargetWidth);
    assert (Placeholder + back)[|Placeholder|..] == back;
    MissingFirstChar(back, Placeholder);
    var u := front + (TargetWidth + back);
    assert ReplaceAll(m, Placeholder, TargetWidth) == u;
    assert u[0] == front[0] == '/';
    assert !IsPrefix("http", u);
    assert Scheme + u == Scheme + front + TargetWidth + back;
  }

  lemma ImageUrlExample()
    ensures ImageUrl(Some("//cdn.example.com/img_" + Placeholder + ".jpg")) ==
            Some(Scheme + "//cdn.example.com/img_" + TargetWidth + ".jpg")
  {
    ImageUrlTemplate("//cdn.example.com/img_", ".jpg");
  }

  // ---------------------------------------------------------- description

  /** The description: the element's text with surrounding whitespace stripped. */
  function Description(text: Option<string>): (r: Option<string>)
    ensures r.None? <==> text.None?
    ensures r.Some? ==> r.value == Strip(text.value)
  {
    if text.None? then None else Some(Strip(text.value))
  }

  // -------------------------------------------------------------- record

  /**
   Builds the record for a tile whose name has been read: every other
   field comes from its own normaliser and degrades to absent on its own.
   */
  function Extract(name: string, it: RawItem): (p: Product)
    ensures p.name == name && p.rating.None? && p.category == Category
    ensures p.price == ParsePrice(PriceText(it))
    ensures p.price.Some? ==> ValidNumeral(p.price.value)
    ensures p.availability == Classify(it.availability)
    ensures p.imageUrl == ImageUrl(it.imageMaster)
    ensures p.imageUrl.Some? ==> IsPrefix("http", p.imageUrl.value)
    ensures p.imageUrl.None? <==> it.imageMaster.None? || it.imageMaster == Some("")
    ensures p.description == Description(it.description)
    ensures p.description.Some? <==> it.description.Some?
    ensures p.description.Some? && p.description.value != [] ==>
      !IsSpace(p.description.value[0])
  {
    Product(name, ParsePrice(PriceText(it)), Description(it.description), None,
            Category, Classify(it.availability), ImageUrl(it.imageMaster))
  }
}
