/**
 * The Quick Reference client: it fetches the language list from the service (or falls
 * back to a built-in list), decodes each six-character hex colour into an opaque RGBA
 * colour and turns every such language into a card, in order. The window, widgets and
 * tap callbacks are not modelled; a card is the name, id and colour it is built from.
 */
module QuickReference {
  import opened Optional
  import LanguageTable

  newtype byte = x: int | 0 <= x < 256

  /**
   * `Language` as the client decodes it. The colour is kept as the bytes of the Go
   * string, because `len` and slicing on a Go string count bytes.
   */
  datatype Language = Language(id: int, name: string, color: seq<byte>)

  /** `color.NRGBA`. */
  datatype NRGBA = NRGBA(r: byte, g: byte, b: byte, a: byte)

  /** What `createLanguageCard` is given: the label, the id of the tap callback and the background. */
  datatype Card = Card(name: string, id: int, background: NRGBA)

  /** What `fetchLanguages` returns: the decoded list or an error. */
  datatype Fetch = Fetched(languages: seq<Language>) | FetchFailed

  /** The value of one hexadecimal digit: `0`-`9`, `a`-`f` or `A`-`F`. */
  function DigitValue(c: byte): (v: Option<byte>)
    ensures v.Some? ==> v.value < 16
  {
    if 48 <= c <= 57 then Some(c - 48)
    else if 97 <= c <= 102 then Some(c - 87)
    else if 65 <= c <= 70 then Some(c - 55)
    else None
  }

  /**
   * `strconv.ParseUint(s, 16, 8)` on a two-byte string: both bytes must be hex digits
   * (no sign, no prefix, no underscore in base 16), and two digits never exceed 8 bits.
   */
  function ParseHexByte(s: seq<byte>): Option<byte>
    requires |s| == 2
  {
    match (DigitValue(s[0]), DigitValue(s[1]))
    case (Some(hi), Some(lo)) => Some(hi * 16 + lo)
    case _ => None
  }

  /** A colour channel: the parsed value, or 0, the value `ParseUint` returns with the discarded error. */
  function Channel(s: seq<byte>): byte
    requires |s| == 2
  {
    match ParseHexByte(s)
    case Some(v) => v
    case None => 0
  }

  /** The background of a card: R, G and B from the three hex pairs, fully opaque. */
  function DecodeColor(hex: seq<byte>): NRGBA
    requires |hex| == 6
  {
    NRGBA(Channel(hex[0..2]), Channel(hex[2..4]), Channel(hex[4..6]), 255)
  }

  /** Only a colour string of exactly six bytes gets a card. */
  predicate HasCard(l: Language) {
    |l.color| == 6
  }

  function CardOf(l: Language): Card
    requires HasCard(l)
  {
    Card(l.name, l.id, DecodeColor(l.color))
  }

  /** The cards the `for ... range` loop adds, as a function of the language list. */
  function Cards(ls: seq<Language>): seq<Card> {
    if ls == [] then []
    else (if HasCard(ls[0]) then [CardOf(ls[0])] else []) + Cards(ls[1..])
  }

  /** The loop over the languages that adds one card per six-byte colour. */
  method BuildCards(languages: seq<Language>) returns (content: seq<Card>)
    ensures content == Cards(languages)
  {
    content := [];
    var i := 0;
    while i < |languages|
      invariant 0 <= i <= |languages|
      invariant content == Cards(languages[..i])
    {
      var lang := languages[i];
      CardsAppend(languages[..i], [lang]);
      assert languages[..i + 1] == languages[..i] + [lang];
      if |lang.color| == 6 {
        var hex := lang.color;
        var bg := NRGBA(Channel(hex[0..2]), Channel(hex[2..4]), Channel(hex[4..6]), 255);
        content := content + [Card(lang.name, lang.id, bg)];
      }
      i := i + 1;
    }
    assert languages[..i] == languages;
  }

  /** Cards of a concatenation are the concatenation of the cards: input order is kept. */
  lemma {:induction false} CardsAppend(xs: seq<Language>, ys: seq<Language>)
    ensures Cards(xs + ys) == Cards(xs) + Cards(ys)
  {
    if xs == [] {
      assert xs + ys == ys;
    } else {
      assert (xs + ys)[1..] == xs[1..] + ys;
      CardsAppend(xs[1..], ys);
    }
  }

  /** Every card comes from a language with a six-byte colour, carrying its name, id and decoded colour. */
  lemma {:induction false} CardsSound(ls: seq<Language>, c: Card)
    requires c in Cards(ls)
    ensures exists l :: l in ls && HasCard(l) && c == CardOf(l)
    ensures c.background.a == 255
  {
    if ls != [] {
      if HasCard(ls[0]) && c == CardOf(ls[0]) {
        assert ls[0] in ls;
      } else {
        assert c in Cards(ls[1..]);
        CardsSound(ls[1..], c);
        var l :| l in ls[1..] && HasCard(l) && c == CardOf(l);
        assert l in ls;
      }
    }
  }

  /** Every language with a six-byte colour gets its card. */
  lemma {:induction false} CardsComplete(ls: seq<Language>, l: Language)
    requires l in ls && HasCard(l)
    ensures CardOf(l) in Cards(ls)
  {
    if ls[0] != l {
      assert l in ls[1..];
      CardsComplete(ls[1..], l);
    }
  }

  /** When every colour has six bytes, there is one card per language, position by position. */
  lemma {:induction false} CardsAllEligible(ls: seq<Language>)
    requires forall i :: 0 <= i < |ls| ==> HasCard(ls[i])
    ensures |Cards(ls)| == |ls|
    ensures forall i :: 0 <= i < |ls| ==> Cards(ls)[i] == CardOf(ls[i])
  {
    if ls != [] {
      CardsAllEligible(ls[1..]);
    }
  }

  /** A language whose colour is not six bytes long is skipped. */
  lemma CardsSkip(ls: seq<Language>, l: Language)
    requires !HasCard(l)
    ensures Cards([l] + ls) == Cards(ls)
  {
  }

  /** Writes a value below 16 as one hex digit, upper or lower case. */
  function HexDigit(d: byte, upper: bool): byte
    requires d < 16
  {
    if d < 10 then 48 + d else if upper then 55 + d else 87 + d
  }

  /** The two-digit hex spelling of a byte: the partner of `ParseHexByte`. */
  function HexPair(v: byte, upper: bool): seq<byte> {
    [HexDigit(v / 16, upper), HexDigit(v % 16, upper)]
  }

  /** Every two-digit spelling of a byte, in either case, parses back to it. */
  lemma ParseHexByteRoundTrip(v: byte, upper: bool)
    ensures ParseHexByte(HexPair(v, upper)) == Some(v)
  {
  }

  /** ASCII upper-case letters to lower case; every other byte unchanged. */
  function LowerAscii(c: byte): byte {
    if 65 <= c <= 90 then c + 32 else c
  }

  /** Conversely, a pair parses only if it is the lower-case spelling of its value, up to case. */
  lemma ParseHexByteOnlyHexPairs(s: seq<byte>, v: byte)
    requires |s| == 2 && ParseHexByte(s) == Some(v)
    ensures [LowerAscii(s[0]), LowerAscii(s[1])] == HexPair(v, false)
  {
  }

  /** A pair fails to parse exactly when one of its bytes is not a hex digit. */
  lemma ParseHexByteFails(s: seq<byte>)
    requires |s| == 2
    ensures ParseHexByte(s).None? <==> DigitValue(s[0]).None? || DigitValue(s[1]).None?
  {
  }

  /** Decoding the hex spelling of R, G and B gives back that colour, fully opaque. */
  lemma DecodeColorRoundTrip(r: byte, g: byte, b: byte, upper: bool)
    ensures DecodeColor(HexPair(r, upper) + HexPair(g, upper) + HexPair(b, upper)) == NRGBA(r, g, b, 255)
  {
  }

  /**
   * An invalid hex pair does not skip the card: whichever of the three pairs fails to
   * parse gives a channel of 0, the other channels decode as usual, and the card keeps
   * the language's name and id.
   */
  lemma InvalidPairIsZero(l: Language)
    requires HasCard(l)
    ensures ParseHexByte(l.color[0..2]).None? ==> CardOf(l).background.r == 0
    ensures ParseHexByte(l.color[2..4]).None? ==> CardOf(l).background.g == 0
    ensures ParseHexByte(l.color[4..6]).None? ==> CardOf(l).background.b == 0
    ensures ParseHexByte(l.color[0..2]).Some? ==> CardOf(l).background.r == ParseHexByte(l.color[0..2]).value
    ensures ParseHexByte(l.color[2..4]).Some? ==> CardOf(l).background.g == ParseHexByte(l.color[2..4]).value
    ensures ParseHexByte(l.color[4..6]).Some? ==> CardOf(l).background.b == ParseHexByte(l.color[4..6]).value
    ensures CardOf(l).name == l.name && CardOf(l).id == l.id
  {
  }

  predicate IsAscii(s: string) {
    forall i :: 0 <= i < |s| ==> s[i] as int < 128
  }

  /** The bytes of a string of ASCII characters. */
  function Ascii(s: string): (bs: seq<byte>)
    requires IsAscii(s)
    ensures |bs| == |s| && forall i :: 0 <= i < |s| ==> bs[i] as int == s[i] as int
  {
    seq(|s|, i requires 0 <= i < |s| => s[i] as int as byte)
  }

  /** The built-in list the client shows when the fetch fails. */
  const Fallback: seq<Language> := [
    Language(1, "Python", Ascii("4F75A1")),
    Language(2, "JavaScript", Ascii("F1DC5D")),
    Language(3, "Swift", Ascii("EB735F")),
    Language(4, "Rust", Ascii("8E6CE1")),
    Language(5, "Kotlin", Ascii("8E6CE1")),
    Language(6, "Dart", Ascii("74B8DF")),
    Language(7, "Go", Ascii("6BAFC6"))
  ]

  /** The list `main` iterates over. */
  function LanguagesShown(f: Fetch): seq<Language> {
    if f.FetchFailed? then Fallback else f.languages
  }

  /** The cards `main` adds to the window. */
  method ShowLanguages(f: Fetch) returns (content: seq<Card>)
    ensures content == Cards(LanguagesShown(f))
  {
    var languages := if f.FetchFailed? then Fallback else f.languages;
    content := BuildCards(languages);
  }

  /** A server language as the client decodes it, for colours that are plain ASCII. */
  function FromServer(l: LanguageTable.Language): Language
    requires IsAscii(l.color)
  {
    Language(l.id, l.name, Ascii(l.color))
  }

  /** The fallback entries are the server's seed rows, under ids 1 to 7. */
  lemma FallbackIsSeedData()
    ensures |Fallback| == |LanguageTable.SeedData| == 7
    ensures forall k :: 0 <= k < 7 ==> IsAscii(LanguageTable.SeedData[k].color)
    ensures forall k :: 0 <= k < 7 ==>
      Fallback[k] == Language(k + 1, LanguageTable.SeedData[k].name, Ascii(LanguageTable.SeedData[k].color))
  {
  }

  /**
   * On a failed fetch the client shows exactly the seven fallback entries, which are
   * what a freshly seeded service lists.
   */
  lemma FallbackIsSeedListing()
    ensures var seeded := LanguageTable.Listing(LanguageTable.Init(LanguageTable.Missing));
      && |LanguagesShown(FetchFailed)| == |seeded| == 7
      && (forall k :: 0 <= k < 7 ==> IsAscii(seeded[k].color))
      && (forall k :: 0 <= k < 7 ==> LanguagesShown(FetchFailed)[k] == FromServer(seeded[k]))
  {
    LanguageTable.InitSeeds(LanguageTable.Missing);
    FallbackIsSeedData();
  }

  /** Every fallback language gets a card, in order. */
  lemma FallbackCards()
    ensures |Cards(Fallback)| == 7
    ensures forall k :: 0 <= k < 7 ==> Cards(Fallback)[k] == CardOf(Fallback[k])
  {
    CardsAllEligible(Fallback);
  }
}
