/**
 * Where an edition of the gazette lives: the month folder table, the
 * edition and date formats, the folder and file tags and the two ways
 * the programs build the download link from them.
 */
module Locator {
  import opened Decimal
  import opened Calendar
  import opened Percent

  const BaseUrl := "https://dodf.df.gov.br/dodf/jornal/visualizar-pdf"

  /** The month folders; month `m` is entry `m - 1`. */
  const Months: seq<string> := [
    "01_Janeiro", "02_Fevereiro", "03_Mar\U{E7}o", "04_Abril",
    "05_Maio", "06_Junho", "07_Julho", "08_Agosto",
    "09_Setembro", "10_Outubro", "11_Novembro", "12_Dezembro"
  ]

  /** `meses[mes - 1]`: starts with the two-digit month and `_`. */
  function MonthFolder(m: int): (r: string)
    requires 1 <= m <= 12
    ensures |r| > 3 && r[..2] == ZeroPad(m, 2) && r[2] == '_'
    ensures forall i :: 0 <= i < |r| ==> r[i] != ' ' && r[i] != '|'
  {
    MonthTableShape(m);
    ZeroPadTwo(m);
    Months[m - 1]
  }

  lemma MonthTableShape(m: int)
    requires 1 <= m <= 12
    ensures var r := Months[m - 1];
      && |r| > 3 && r[0] == DigitChar(m / 10) && r[1] == DigitChar(m % 10) && r[2] == '_'
      && forall i :: 0 <= i < |r| ==> r[i] != ' ' && r[i] != '|'
  {
  }

  /** `f"{n:03d}"`, the edition as written in the tags. */
  function EditionTag(n: nat): (r: string)
    ensures |r| >= 3 && AllDigits(r) && Value(r) == n
    ensures n < 1000 ==> |r| == 3
    ensures n >= 100 ==> r == ToDecimal(n)
  {
    DecimalAtLeastThree(n);
    ZeroPad(n, 3)
  }

  lemma DecimalAtLeastThree(n: nat)
    ensures n < 1000 ==> |ToDecimal(n)| <= 3
    ensures n >= 100 ==> |ToDecimal(n)| >= 3
  {
    if n >= 10 {
      DecimalAtLeastThree(n / 10);
    }
  }

  /** `f"{dia:02d}-{mes:02d}-{ano}"`: reads back as day, month and year. */
  function FormatDate(d: Date): (r: string)
    requires Valid(d)
    ensures |r| == 6 + |ToDecimal(d.year)|
    ensures r[2] == '-' && r[5] == '-'
    ensures AllDigits(r[..2]) && Value(r[..2]) == d.day
    ensures AllDigits(r[3..5]) && Value(r[3..5]) == d.month
    ensures r[6..] == ToDecimal(d.year) && Value(r[6..]) == d.year
  {
    DecimalOfTwoDigits(d.day);
    DecimalOfTwoDigits(d.month);
    ValueOfDecimal(d.year);
    var r := ZeroPad(d.day, 2) + "-" + ZeroPad(d.month, 2) + "-" + ToDecimal(d.year);
    assert r[..2] == ZeroPad(d.day, 2);
    assert r[3..5] == ZeroPad(d.month, 2);
    assert r[6..] == ToDecimal(d.year);
    r
  }

  /** `f"{ano}|{mes_pasta}|DODF {edicao_formatada} {data_edicao}|"`. */
  function FolderTag(d: Date, n: nat): string
    requires Valid(d)
  {
    ToDecimal(d.year) + "|" + MonthFolder(d.month) + "|DODF " + EditionTag(n) + " " + FormatDate(d) + "|"
  }

  /** `f"DODF {edicao_formatada} {data_edicao} INTEGRA.pdf"`. */
  function FileTag(d: Date, n: nat): string
    requires Valid(d)
  {
    "DODF " + EditionTag(n) + " " + FormatDate(d) + " " + "INTEGRA" + ".pdf"
  }

  /** The link of the cloud version: both tags percent-encoded. */
  function AppLink(d: Date, n: nat): string
    requires Valid(d)
  {
    BaseUrl + "?pasta=" + Quote(FolderTag(d, n)) + "&arquivo=" + Quote(FileTag(d, n))
  }

  /** The link of the earlier script: spaces written as `%20` by hand. */
  function ScriptLink(d: Date, n: nat): string
    requires Valid(d)
  {
    var e := EditionTag(n);
    var date := FormatDate(d);
    BaseUrl + "?pasta="
      + (ToDecimal(d.year) + "|" + MonthFolder(d.month) + "|DODF%20" + e + "%20" + date + "|")
      + "&arquivo=" + ("DODF%20" + e + "%20" + date + "%20" + "INTEGRA" + ".pdf")
  }

  predicate AllSafe(s: string) {
    forall i :: 0 <= i < |s| ==> SafeChar(s[i])
  }

  lemma DigitsAreSafe(s: string)
    requires AllDigits(s)
    ensures AllSafe(s)
  {
  }

  lemma DateIsSafe(d: Date)
    requires Valid(d)
    ensures AllSafe(FormatDate(d))
  {
    DashedIsSafe(FormatDate(d));
  }

  /** Digits with dashes at indices 2 and 5, as `DD-MM-YYYY` is laid out. */
  lemma DashedIsSafe(r: string)
    requires |r| >= 6 && r[2] == '-' && r[5] == '-'
    requires AllDigits(r[..2]) && AllDigits(r[3..5]) && AllDigits(r[6..])
    ensures AllSafe(r)
  {
    forall i | 0 <= i < |r| ensures SafeChar(r[i]) {
      if i < 2 {
        assert r[i] == r[..2][i];
      } else if 2 < i < 5 {
        assert r[i] == r[3..5][i - 3];
      } else if i > 5 {
        assert r[i] == r[6..][i - 6];
      }
    }
  }

  /**
   * The encoded folder tag: the pipes become `%7C`, the spaces `%20`, the
   * digits and dashes stay, and the month folder is encoded on its own.
   */
  lemma FolderTagEncoding(d: Date, n: nat)
    requires Valid(d)
    ensures Quote(FolderTag(d, n))
      == ToDecimal(d.year) + "%7C" + Quote(MonthFolder(d.month)) + "%7CDODF%20" + EditionTag(n) + "%20"
         + FormatDate(d) + "%7C"
  {
    DigitsAreSafe(ToDecimal(d.year));
    DigitsAreSafe(EditionTag(n));
    DateIsSafe(d);
    FolderPiecesQuote(ToDecimal(d.year), MonthFolder(d.month), EditionTag(n), FormatDate(d));
  }

  lemma FolderPiecesQuote(y: string, m: string, e: string, t: string)
    requires AllSafe(y) && AllSafe(e) && AllSafe(t)
    ensures Quote(y + "|" + m + "|DODF " + e + " " + t + "|")
      == y + "%7C" + Quote(m) + "%7CDODF%20" + e + "%20" + t + "%7C"
  {
    QuoteOfSafe(y);
    QuoteOfSafe(e);
    QuoteOfSafe(t);
    QuotePipe();
    QuoteSpace();
    QuotePipeDodf();
    var s1 := y + "|";
    QuoteAppend(y, "|");
    var s2 := s1 + m;
    QuoteAppend(s1, m);
    var s3 := s2 + "|DODF ";
    QuoteAppend(s2, "|DODF ");
    var s4 := s3 + e;
    QuoteAppend(s3, e);
    var s5 := s4 + " ";
    QuoteAppend(s4, " ");
    var s6 := s5 + t;
    QuoteAppend(s5, t);
    QuoteAppend(s6, "|");
  }

  lemma QuotePipeDodf()
    ensures Quote("|DODF ") == "%7CDODF%20"
  {
    QuotePipe();
    QuoteDodfSpace();
    assert "|DODF " == "|" + "DODF ";
    QuoteAppend("|", "DODF ");
  }

  lemma QuoteDodfSpace()
    ensures Quote("DODF ") == "DODF%20"
  {
    QuoteSpace();
    QuoteOfSafe("DODF");
    assert "DODF " == "DODF" + " ";
    QuoteAppend("DODF", " ");
  }

  lemma QuoteIntegra()
    ensures Quote("INTEGRA") == "INTEGRA" && Quote(".pdf") == ".pdf"
  {
  }

  /** The encoded file tag: only the three spaces change. */
  lemma FileTagEncoding(d: Date, n: nat)
    requires Valid(d)
    ensures Quote(FileTag(d, n)) == "DODF%20" + EditionTag(n) + "%20" + FormatDate(d) + "%20" + "INTEGRA" + ".pdf"
  {
    DigitsAreSafe(EditionTag(n));
    DateIsSafe(d);
    FilePiecesQuote(EditionTag(n), FormatDate(d));
  }

  lemma FilePiecesQuote(e: string, t: string)
    requires AllSafe(e) && AllSafe(t)
    ensures Quote("DODF " + e + " " + t + " " + "INTEGRA" + ".pdf")
      == "DODF%20" + e + "%20" + t + "%20" + "INTEGRA" + ".pdf"
  {
    QuoteOfSafe(e);
    QuoteOfSafe(t);
    QuoteSpace();
    QuoteDodfSpace();
    QuoteIntegra();
    var s1 := "DODF " + e;
    QuoteAppend("DODF ", e);
    var s2 := s1 + " ";
    QuoteAppend(s1, " ");
    var s3 := s2 + t;
    QuoteAppend(s2, t);
    var s4 := s3 + " ";
    QuoteAppend(s3, " ");
    var s5 := s4 + "INTEGRA";
    QuoteAppend(s4, "INTEGRA");
    QuoteAppend(s5, ".pdf");
  }

  /** Of the month folders only March ("Março") changes under encoding. */
  lemma MonthFolderEncoding(m: int)
    requires 1 <= m <= 12
    ensures m == 3 ==> Quote(MonthFolder(m)) == "03_Mar%C3%A7o"
    ensures m != 3 ==> Quote(MonthFolder(m)) == MonthFolder(m)
  {
    if m == 3 {
      QuoteMarch();
    } else {
      OtherMonthsSafe(m);
      QuoteOfSafe(Months[m - 1]);
    }
  }

  lemma QuoteMarch()
    ensures Quote(Months[2]) == "03_Mar%C3%A7o"
  {
    MarchPieces();
    QuoteAroundCedilla("03_Mar", "o");
  }

  lemma MarchPieces()
    ensures Months[2] == "03_Mar" + "\U{E7}" + "o"
    ensures AllSafe("03_Mar") && AllSafe("o")
  {
  }

  lemma QuoteAroundCedilla(head: string, tail: string)
    requires AllSafe(head) && AllSafe(tail)
    ensures Quote(head + "\U{E7}" + tail) == head + "%C3%A7" + tail
  {
    QuoteOfSafe(head);
    QuoteOfSafe(tail);
    QuoteCedilla();
    QuoteAppend(head, "\U{E7}");
    QuoteAppend(head + "\U{E7}", tail);
  }

  /** The two UTF-8 bytes of `ç` are C3 A7. */
  lemma QuoteCedilla()
    ensures Quote("\U{E7}") == "%C3%A7"
  {
    assert Utf8('\U{E7}') == [0xC3, 0xA7];
    assert QuoteBytes([0xC3, 0xA7]) == EncodeByte(0xC3) + QuoteBytes([0xA7]);
    assert QuoteBytes([0xA7]) == EncodeByte(0xA7) + QuoteBytes([]);
    assert QuoteChar('\U{E7}') == "%C3%A7";
    assert Quote("\U{E7}") == QuoteChar('\U{E7}') + Quote("");
  }

  lemma OtherMonthsSafe(m: int)
    requires 1 <= m <= 12 && m != 3
    ensures AllSafe(Months[m - 1])
  {
  }

  /** `s` with each space written as `%20` and nothing else changed. */
  function EncodeSpaces(s: string): string
    decreases |s|
  {
    if s == [] then "" else (if s[0] == ' ' then "%20" else [s[0]]) + EncodeSpaces(s[1..])
  }

  lemma {:induction false} EncodeSpacesAppend(a: string, b: string)
    ensures EncodeSpaces(a + b) == EncodeSpaces(a) + EncodeSpaces(b)
    decreases |a|
  {
    if a == [] {
      assert a + b == b;
    } else {
      assert (a + b)[0] == a[0] && (a + b)[1..] == a[1..] + b;
      EncodeSpacesAppend(a[1..], b);
    }
  }

  lemma {:induction false} EncodeSpacesOfSpaceFree(s: string)
    requires SpaceFree(s)
    ensures EncodeSpaces(s) == s
    decreases |s|
  {
    if s != [] {
      EncodeSpacesOfSpaceFree(s[1..]);
      assert s == [s[0]] + s[1..];
    }
  }

  lemma SpacedLiterals()
    ensures EncodeSpaces(" ") == "%20"
    ensures EncodeSpaces("|") == "|"
    ensures EncodeSpaces("|DODF ") == "|DODF%20"
    ensures EncodeSpaces("DODF ") == "DODF%20"
    ensures EncodeSpaces("INTEGRA") == "INTEGRA" && EncodeSpaces(".pdf") == ".pdf"
  {
    SpacedDodf();
    SpacedPipeDodf();
    SpacedSafeWords();
  }

  lemma SpacedDodf()
    ensures EncodeSpaces(" ") == "%20" && EncodeSpaces("DODF ") == "DODF%20"
  {
    assert "DODF " == "DODF" + " ";
    assert SpaceFree("DODF");
    EncodeSpacesOfSpaceFree("DODF");
    EncodeSpacesAppend("DODF", " ");
  }

  lemma SpacedPipeDodf()
    ensures EncodeSpaces("|DODF ") == "|DODF%20"
  {
    SpacedDodf();
    assert "|DODF " == "|" + "DODF ";
    EncodeSpacesAppend("|", "DODF ");
  }

  lemma SpacedSafeWords()
    ensures EncodeSpaces("|") == "|"
    ensures EncodeSpaces("INTEGRA") == "INTEGRA" && EncodeSpaces(".pdf") == ".pdf"
  {
    assert SpaceFree("|") && SpaceFree("INTEGRA") && SpaceFree(".pdf");
    EncodeSpacesOfSpaceFree("|");
    EncodeSpacesOfSpaceFree("INTEGRA");
    EncodeSpacesOfSpaceFree(".pdf");
  }

  /**
   * The earlier script's link is the two raw tags with only the spaces
   * encoded: the pipes and the month folder go into the link unencoded.
   */
  lemma ScriptLinkEncodesOnlySpaces(d: Date, n: nat)
    requires Valid(d)
    ensures ScriptLink(d, n)
      == BaseUrl + "?pasta=" + EncodeSpaces(FolderTag(d, n)) + "&arquivo=" + EncodeSpaces(FileTag(d, n))
  {
    FolderSpaces(d, n);
    FileSpaces(d, n);
  }

  predicate SpaceFree(s: string) {
    forall i :: 0 <= i < |s| ==> s[i] != ' '
  }

  lemma FolderSpaces(d: Date, n: nat)
    requires Valid(d)
    ensures EncodeSpaces(FolderTag(d, n))
      == ToDecimal(d.year) + "|" + MonthFolder(d.month) + "|DODF%20" + EditionTag(n) + "%20" + FormatDate(d) + "|"
  {
    DateIsSafe(d);
    DigitsAreSafe(ToDecimal(d.year));
    DigitsAreSafe(EditionTag(n));
    FolderPiecesSpaces(ToDecimal(d.year), MonthFolder(d.month), EditionTag(n), FormatDate(d));
  }

  lemma FolderPiecesSpaces(y: string, m: string, e: string, t: string)
    requires SpaceFree(y) && SpaceFree(m) && SpaceFree(e) && SpaceFree(t)
    ensures EncodeSpaces(y + "|" + m + "|DODF " + e + " " + t + "|")
      == y + "|" + m + "|DODF%20" + e + "%20" + t + "|"
  {
    EncodeSpacesOfSpaceFree(y);
    EncodeSpacesOfSpaceFree(m);
    EncodeSpacesOfSpaceFree(e);
    EncodeSpacesOfSpaceFree(t);
    SpacedLiterals();
    var s1 := y + "|";
    EncodeSpacesAppend(y, "|");
    var s2 := s1 + m;
    EncodeSpacesAppend(s1, m);
    var s3 := s2 + "|DODF ";
    EncodeSpacesAppend(s2, "|DODF ");
    var s4 := s3 + e;
    EncodeSpacesAppend(s3, e);
    var s5 := s4 + " ";
    EncodeSpacesAppend(s4, " ");
    var s6 := s5 + t;
    EncodeSpacesAppend(s5, t);
    EncodeSpacesAppend(s6, "|");
  }

  lemma FileSpaces(d: Date, n: nat)
    requires Valid(d)
    ensures EncodeSpaces(FileTag(d, n))
      == "DODF%20" + EditionTag(n) + "%20" + FormatDate(d) + "%20" + "INTEGRA" + ".pdf"
  {
    DateIsSafe(d);
    DigitsAreSafe(EditionTag(n));
    FilePiecesSpaces(EditionTag(n), FormatDate(d));
  }

  lemma FilePiecesSpaces(e: string, t: string)
    requires SpaceFree(e) && SpaceFree(t)
    ensures EncodeSpaces("DODF " + e + " " + t + " " + "INTEGRA" + ".pdf")
      == "DODF%20" + e + "%20" + t + "%20" + "INTEGRA" + ".pdf"
  {
    EncodeSpacesOfSpaceFree(e);
    EncodeSpacesOfSpaceFree(t);
    SpacedLiterals();
    var s1 := "DODF " + e;
    EncodeSpacesAppend("DODF ", e);
    var s2 := s1 + " ";
    EncodeSpacesAppend(s1, " ");
    var s3 := s2 + t;
    EncodeSpacesAppend(s2, t);
    var s4 := s3 + " ";
    EncodeSpacesAppend(s3, " ");
    var s5 := s4 + "INTEGRA";
    EncodeSpacesAppend(s4, "INTEGRA");
    EncodeSpacesAppend(s5, ".pdf");
  }
}
