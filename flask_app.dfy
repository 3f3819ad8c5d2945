/**
 * The `/download` form handler of flask_app.py: normalise a numeric stock
 * code to an exchange-prefixed symbol (`adapt_code`), assemble the code
 * list from the text field and the uploaded file, deduplicate it, run
 * `download_stock` for each symbol and reply with the number downloaded.
 */
module FlaskApp {
  import opened Wrappers
  import opened Strings
  import opened Store
  import opened Fetch
  import opened Downloader

  // ---------------------------------------------------------------------
  // adapt_code
  // ---------------------------------------------------------------------

  /**
   * `adapt_code(code)`: "" unless the stripped code is all digits; then
   * "sh" for a code starting with '6' (Shanghai), "sz" otherwise, followed
   * by the code left-padded with '0' to six digits.
   */
  function AdaptCode(code: string): (r: string)
    ensures r == "" <==> !AllDigits(Strip(code))
    ensures r != "" ==> |r| == 2 + if |Strip(code)| < 6 then 6 else |Strip(code)|
    ensures r != "" ==> r[..2] == if Strip(code)[0] == '6' then "sh" else "sz"
    ensures r != "" ==> AllDigits(r[2..])
    ensures r != "" ==> r[|r| - |Strip(code)|..] == Strip(code)
    ensures r != "" ==> forall k :: 2 <= k < |r| - |Strip(code)| ==> r[k] == '0'
  {
    var c := Strip(code);
    if !AllDigits(c) then ""
    else
      var prefix := if c[0] == '6' then "sh" else "sz";
      ZFillDigits(c, 6);
      var r := prefix + ZFill(c, 6);
      assert r[2..] == ZFill(c, 6);
      r
  }

  /** Deduplication happens before normalisation: different codes can name the same symbol. */
  lemma AdaptCodeMerges()
    ensures AdaptCode("1") == AdaptCode("000001") == "sz000001"
  {
    assert AllDigits("1") && AllDigits("000001");
    DigitCodeAdapts("1");
    DigitCodeAdapts("000001");
    var a := AdaptCode("1");
    var b := AdaptCode("000001");
    assert |a| == 8 && a[..2] == "sz" && a[7..] == "1";
    assert forall k :: 2 <= k < 7 ==> a[k] == '0';
    assert a == "sz000001" by {
      assert a == a[..2] + a[2..7] + a[7..];
      assert a[2..7] == "00000";
    }
    assert |b| == 8 && b[..2] == "sz" && b[2..] == "000001";
    assert b == b[..2] + b[2..];
  }

  // ---------------------------------------------------------------------
  // The code list
  // ---------------------------------------------------------------------

  /** Each piece stripped, with the pieces that strip to nothing dropped. */
  function StrippedPieces(pieces: seq<string>): (r: seq<string>)
    ensures |r| <= |pieces|
    decreases |pieces|
  {
    if pieces == [] then []
    else
      var rest := StrippedPieces(pieces[1..]);
      var c := Strip(pieces[0]);
      if c != "" then [c] + rest else rest
  }

  /** The stripped pieces kept are exactly the non-blank ones. */
  lemma {:induction false} StrippedPiecesMembers(pieces: seq<string>)
    ensures forall c :: c in StrippedPieces(pieces) <==> c != "" && exists k :: 0 <= k < |pieces| && c == Strip(pieces[k])
    decreases |pieces|
  {
    if pieces != [] {
      var tail := pieces[1..];
      StrippedPiecesMembers(tail);
      var r := StrippedPieces(pieces);
      var rest := StrippedPieces(tail);
      forall c ensures c in r <==> c != "" && exists k :: 0 <= k < |pieces| && c == Strip(pieces[k]) {
        if c in r {
          if c in rest {
            var k :| 0 <= k < |tail| && c == Strip(tail[k]);
            assert pieces[k + 1] == tail[k];
          } else {
            assert c == Strip(pieces[0]);
          }
        }
        if c != "" && exists k :: 0 <= k < |pieces| && c == Strip(pieces[k]) {
          var k :| 0 <= k < |pieces| && c == Strip(pieces[k]);
          if k > 0 {
            assert tail[k - 1] == pieces[k];
            assert c in rest;
          }
        }
      }
    }
  }

  /** The codes typed into the text field, separated by ';'. */
  function TextCodes(text: string): (r: seq<string>)
    ensures |r| <= |Split(text, ';')|
  {
    if text == "" then [] else StrippedPieces(Split(text, ';'))
  }

  /** An empty field and a field of one empty piece both give no codes. */
  lemma TextCodesOfPieces(text: string)
    ensures TextCodes(text) == StrippedPieces(Split(text, ';'))
  {
    if text == "" {
      var pieces := Split(text, ';');
      assert pieces == [""] && pieces[1..] == [];
      assert Strip("") == "";
    }
  }

  /**
   * The text field's codes are exactly the non-blank pieces of the text
   * split on ';', stripped; none of them contains a ';'.
   */
  lemma TextCodesMembers(text: string)
    ensures forall c :: c in TextCodes(text) <==>
              c != "" && exists k :: 0 <= k < |Split(text, ';')| && c == Strip(Split(text, ';')[k])
    ensures forall c :: c in TextCodes(text) ==> IsStripped(c) && ';' !in c
  {
    var pieces := Split(text, ';');
    TextCodesOfPieces(text);
    StrippedPiecesMembers(pieces);
    SplitPiecesFree(text, ';');
    forall c | c in TextCodes(text) ensures IsStripped(c) && ';' !in c {
      var k :| 0 <= k < |pieces| && c == Strip(pieces[k]);
      StripKeepsChars(pieces[k]);
    }
  }

  /** The text of `line` up to its first ','. */
  function BeforeComma(line: string): (r: string)
    decreases |line|
  {
    if line == [] || line[0] == ',' then [] else [line[0]] + BeforeComma(line[1..])
  }

  /** The text up to the first ',' is the first piece of `split(',')`. */
  lemma {:induction false} BeforeCommaIsFirstPiece(line: string)
    ensures BeforeComma(line) == Split(line, ',')[0]
    decreases |line|
  {
    if line != [] && line[0] != ',' {
      BeforeCommaIsFirstPiece(line[1..]);
    }
  }

  /** The first comma-separated field of a line, stripped. */
  function FirstField(line: string): string
  {
    Strip(BeforeComma(line))
  }

  /** The first field of each line, in order. */
  function FirstFields(lines: seq<string>): (r: seq<string>)
    ensures |r| == |lines|
    ensures forall k :: 0 <= k < |lines| ==> r[k] == FirstField(lines[k])
  {
    seq(|lines|, k requires 0 <= k < |lines| => FirstField(lines[k]))
  }

  /** The fields that are all digits, in order. */
  function DigitFields(fields: seq<string>): (r: seq<string>)
    ensures |r| <= |fields|
    decreases |fields|
  {
    if fields == [] then []
    else
      var c := fields[|fields| - 1];
      DigitFields(fields[..|fields| - 1]) + if AllDigits(c) then [c] else []
  }

  /** The fields kept are exactly those that are all digits. */
  lemma {:induction false} DigitFieldsMembers(fields: seq<string>)
    ensures forall c :: c in DigitFields(fields) <==> c in fields && AllDigits(c)
    decreases |fields|
  {
    if fields != [] {
      var front := fields[..|fields| - 1];
      DigitFieldsMembers(front);
      assert fields == front + [fields[|fields| - 1]];
    }
  }

  /** The codes the loop over the uploaded file's lines keeps, in order. */
  function FileCodesOf(lines: seq<string>): (r: seq<string>)
    ensures |r| <= |lines|
  {
    DigitFields(FirstFields(lines))
  }

  lemma FileCodesOfExtend(lines: seq<string>, i: nat)
    requires i < |lines|
    ensures FileCodesOf(lines[..i + 1])
         == FileCodesOf(lines[..i]) + if AllDigits(FirstField(lines[i])) then [FirstField(lines[i])] else []
  {
    var fields := FirstFields(lines[..i + 1]);
    assert fields[..i] == FirstFields(lines[..i]);
    assert fields[i] == FirstField(lines[i]);
  }

  /** A file's codes are exactly the first fields, stripped, of its lines that are all digits. */
  lemma FileCodesMembers(lines: seq<string>)
    ensures forall c :: c in FileCodesOf(lines) <==> AllDigits(c) && exists k :: 0 <= k < |lines| && c == FirstField(lines[k])
  {
    var fields := FirstFields(lines);
    DigitFieldsMembers(fields);
    forall c | c in fields ensures exists k :: 0 <= k < |lines| && c == FirstField(lines[k]) {
      var k :| 0 <= k < |fields| && fields[k] == c;
      assert c == FirstField(lines[k]);
    }
    forall c | exists k :: 0 <= k < |lines| && c == FirstField(lines[k]) ensures c in fields {
      var k :| 0 <= k < |lines| && c == FirstField(lines[k]);
      assert fields[k] == c;
    }
  }

  /** The loop over the uploaded file's lines, keeping each line's first field when it is all digits. */
  method FileCodes(lines: seq<string>) returns (codes: seq<string>)
    ensures codes == FileCodesOf(lines)
  {
    codes := [];
    var i := 0;
    while i < |lines|
      invariant 0 <= i <= |lines|
      invariant codes == FileCodesOf(lines[..i])
    {
      var parts := Split(lines[i], ',');
      var first := Strip(parts[0]);
      BeforeCommaIsFirstPiece(lines[i]);
      FileCodesOfExtend(lines, i);
      if AllDigits(first) {
        codes := codes + [first];
      }
      i := i + 1;
    }
    assert lines[..i] == lines;
  }

  /**
   * The first half of `download`: the text field's codes, then those of
   * the uploaded file (when one with a file name was sent), in order.
   */
  method CollectCodes(text: Option<string>, file: Option<seq<string>>) returns (codes: seq<string>)
    ensures codes == TextCodes(FieldOr(text, "")) + (if file.Some? then FileCodesOf(file.value) else [])
  {
    codes := [];
    var t := FieldOr(text, "");
    if t != "" {
      codes := codes + TextCodes(t);
    }
    assert codes == TextCodes(t);
    if file.Some? {
      var more := FileCodes(file.value);
      codes := codes + more;
    } else {
      assert codes == codes + [];
    }
  }

  /**
   * The deduplication of `download` through a set: the digit codes, each
   * once, in an unspecified order.
   */
  method UniqueDigitCodes(codes: seq<string>) returns (unique: seq<string>)
    ensures forall i, j :: 0 <= i < j < |unique| ==> unique[i] != unique[j]
    ensures forall c :: c in unique <==> c in codes && AllDigits(c)
  {
    var pending := set c | c in codes && AllDigits(c);
    unique := [];
    while pending != {}
      invariant forall i, j :: 0 <= i < j < |unique| ==> unique[i] != unique[j]
      invariant forall c :: c in unique ==> c !in pending
      invariant forall c :: c in unique || c in pending <==> c in codes && AllDigits(c)
      decreases pending
    {
      var c :| c in pending;
      unique := unique + [c];
      pending := pending - {c};
    }
  }

  /** A code that survived deduplication always has a symbol: `if not symbol` never skips it. */
  lemma DigitCodeAdapts(c: string)
    requires AllDigits(c)
    ensures Strip(c) == c
    ensures AdaptCode(c) != "" && AdaptCode(c)[|AdaptCode(c)| - |c|..] == c
  {
    assert !IsSpace(c[0]) && !IsSpace(c[|c| - 1]);
    StripOfStripped(c);
  }

  // ---------------------------------------------------------------------
  // The download loop and the reply
  // ---------------------------------------------------------------------

  /**
   * The store after the loop over the codes, the symbols downloaded, the
   * symbols whose download raised, and how many codes had no symbol.
   */
  datatype Downloads = Downloads(tables: Tables, downloaded: seq<string>, failed: seq<string>, skipped: nat)

  /** One iteration of the loop `for c in codes` of `download`. */
  function DownloadNext(prev: Downloads, code: string, start: string, end: string, p: Provider): (r: Downloads)
    ensures |r.downloaded| + |r.failed| + r.skipped == |prev.downloaded| + |prev.failed| + prev.skipped + 1
  {
    var symbol := AdaptCode(code);
    if symbol == "" then prev.(skipped := prev.skipped + 1)
    else
      var s := Sync(prev.tables, symbol, start, end, p);
      if s.outcome.Pass? then Downloads(s.tables, prev.downloaded + [symbol], prev.failed, prev.skipped)
      else Downloads(s.tables, prev.downloaded, prev.failed + [symbol], prev.skipped)
  }

  /** The loop `for c in codes` of `download`, on the store's contents. */
  function DownloadAll(ts: Tables, codes: seq<string>, start: string, end: string, p: Provider): (r: Downloads)
    ensures |r.downloaded| + |r.failed| + r.skipped == |codes|
    decreases |codes|
  {
    if codes == [] then Downloads(ts, [], [], 0)
    else DownloadNext(DownloadAll(ts, codes[..|codes| - 1], start, end, p), codes[|codes| - 1], start, end, p)
  }

  lemma DownloadAllExtend(ts: Tables, codes: seq<string>, start: string, end: string, p: Provider, i: nat)
    requires i < |codes|
    ensures DownloadAll(ts, codes[..i + 1], start, end, p)
         == DownloadNext(DownloadAll(ts, codes[..i], start, end, p), codes[i], start, end, p)
  {
    assert codes[..i + 1][..i] == codes[..i];
  }

  /** Every symbol counted as downloaded is the non-empty `adapt_code` of one of the codes. */
  lemma {:induction false} DownloadedAreSymbols(ts: Tables, codes: seq<string>, start: string, end: string, p: Provider)
    ensures forall s :: s in DownloadAll(ts, codes, start, end, p).downloaded ==>
              s != "" && exists k :: 0 <= k < |codes| && s == AdaptCode(codes[k])
    decreases |codes|
  {
    if codes != [] {
      var front := codes[..|codes| - 1];
      DownloadedAreSymbols(ts, front, start, end, p);
      var r := DownloadAll(ts, codes, start, end, p);
      var prev := DownloadAll(ts, front, start, end, p);
      forall s | s in r.downloaded ensures s != "" && exists k :: 0 <= k < |codes| && s == AdaptCode(codes[k]) {
        if s in prev.downloaded {
          var k :| 0 <= k < |front| && s == AdaptCode(front[k]);
          assert front[k] == codes[k];
        } else {
          assert s == AdaptCode(codes[|codes| - 1]);
        }
      }
    }
  }

  /**
   * The count of `download`: on a list of digit codes no code is skipped,
   * so the number downloaded is the number of codes whose download did not
   * raise.
   */
  lemma {:induction false} DigitCodesNeverSkipped(ts: Tables, codes: seq<string>, start: string, end: string, p: Provider)
    requires forall k :: 0 <= k < |codes| ==> AllDigits(codes[k])
    ensures DownloadAll(ts, codes, start, end, p).skipped == 0
    ensures |DownloadAll(ts, codes, start, end, p).downloaded| == |codes| - |DownloadAll(ts, codes, start, end, p).failed|
    decreases |codes|
  {
    if codes != [] {
      var front := codes[..|codes| - 1];
      assert forall k :: 0 <= k < |front| ==> front[k] == codes[k];
      DigitCodesNeverSkipped(ts, front, start, end, p);
      DigitCodeAdapts(codes[|codes| - 1]);
    }
  }

  /**
   * Two spellings of one code are downloaded, and counted, twice: with a
   * provider that always returns an empty frame, the codes `1` and
   * `000001` both download `sz000001`.
   */
  lemma AdaptCodeDoubleDownload(ts: Tables, start: string, end: string, p: Provider)
    requires AlwaysEmpty(p)
    ensures DownloadAll(ts, ["1", "000001"], start, end, p).downloaded == ["sz000001", "sz000001"]
  {
    AdaptCodeMerges();
    SameSymbolTwice(ts, "1", "000001", start, end, p);
  }

  /** Two codes with the same symbol both download it. */
  lemma SameSymbolTwice(ts: Tables, a: string, b: string, start: string, end: string, p: Provider)
    requires AlwaysEmpty(p)
    requires AdaptCode(a) != "" && AdaptCode(b) == AdaptCode(a)
    ensures DownloadAll(ts, [a, b], start, end, p).downloaded == [AdaptCode(a), AdaptCode(a)]
  {
    DownloadAllEmpty(ts, [a, b], start, end, p);
    SymbolsPair(a, b);
  }

  lemma SymbolsPair(a: string, b: string)
    ensures Symbols([a, b]) == [AdaptCode(a), AdaptCode(b)]
  {
    assert [a, b][..1] == [a] && [a][..0] == [];
    assert Symbols([a]) == [AdaptCode(a)];
  }

  /** The `adapt_code` of each code, in order. */
  function Symbols(codes: seq<string>): seq<string>
    decreases |codes|
  {
    if codes == [] then [] else Symbols(codes[..|codes| - 1]) + [AdaptCode(codes[|codes| - 1])]
  }

  lemma {:induction false} SymbolsLength(codes: seq<string>)
    ensures |Symbols(codes)| == |codes|
    decreases |codes|
  {
    if codes != [] {
      SymbolsLength(codes[..|codes| - 1]);
    }
  }

  /** The `k`-th symbol is the `adapt_code` of the `k`-th code. */
  lemma {:induction false} SymbolsAt(codes: seq<string>, k: nat)
    requires k < |codes|
    ensures |Symbols(codes)| == |codes| && Symbols(codes)[k] == AdaptCode(codes[k])
    decreases |codes|
  {
    var front := codes[..|codes| - 1];
    SymbolsLength(front);
    if k < |front| {
      SymbolsAt(front, k);
      assert front[k] == codes[k];
    }
  }

  lemma SymbolsSnoc(codes: seq<string>)
    requires codes != []
    ensures Symbols(codes) == Symbols(codes[..|codes| - 1]) + [AdaptCode(codes[|codes| - 1])]
  {
  }

  /** The symbols of all codes but the last, then the last code's symbol. */
  lemma SymbolsFront(codes: seq<string>)
    requires codes != []
    ensures |Symbols(codes)| == |codes|
    ensures Symbols(codes)[..|codes| - 1] == Symbols(codes[..|codes| - 1])
    ensures Symbols(codes)[|codes| - 1] == AdaptCode(codes[|codes| - 1])
  {
    SymbolsLength(codes[..|codes| - 1]);
    SymbolsAt(codes, |codes| - 1);
  }

  /** Running `main`'s task loop over the symbols, one more code at a time. */
  lemma SyncAllSymbolsStep(ts: Tables, codes: seq<string>, start: string, end: string, p: Provider)
    requires codes != []
    ensures var prev := SyncAll(ts, Symbols(codes[..|codes| - 1]), start, end, p);
            var sym := AdaptCode(codes[|codes| - 1]);
            var s := Sync(prev.tables, sym, start, end, p);
            SyncAll(ts, Symbols(codes), start, end, p) == Report(s.tables, prev.failed + if s.outcome.Fail? then [sym] else [])
  {
    SymbolsFront(codes);
  }

  /** One iteration on a code with a symbol is `download_stock` of that symbol. */
  lemma DownloadNextSynced(prev: Downloads, code: string, start: string, end: string, p: Provider)
    requires AdaptCode(code) != ""
    ensures var sym := AdaptCode(code);
            var s := Sync(prev.tables, sym, start, end, p);
            var r := DownloadNext(prev, code, start, end, p);
            && r.tables == s.tables
            && r.failed == prev.failed + (if s.outcome.Fail? then [sym] else [])
            && r.downloaded == prev.downloaded + (if s.outcome.Pass? then [sym] else [])
  {
  }

  /**
   * On codes that all have symbols, the loop of `download` leaves the store
   * and the failures that `main`'s task loop leaves over their symbols.
   */
  lemma {:induction false} DownloadAllIsSyncAll(ts: Tables, codes: seq<string>, start: string, end: string, p: Provider)
    requires forall k :: 0 <= k < |codes| ==> AdaptCode(codes[k]) != ""
    ensures DownloadAll(ts, codes, start, end, p).tables == SyncAll(ts, Symbols(codes), start, end, p).tables
    ensures DownloadAll(ts, codes, start, end, p).failed == SyncAll(ts, Symbols(codes), start, end, p).failed
    decreases |codes|
  {
    if codes != [] {
      var front := codes[..|codes| - 1];
      assert forall k :: 0 <= k < |front| ==> front[k] == codes[k];
      DownloadAllIsSyncAll(ts, front, start, end, p);
      SyncAllSymbolsStep(ts, codes, start, end, p);
      DownloadNextSynced(DownloadAll(ts, front, start, end, p), codes[|codes| - 1], start, end, p);
    }
  }

  /**
   * With distinct symbols, a code is downloaded exactly when `download_stock`
   * of its symbol would succeed alone on the starting store, in order.
   */
  lemma {:induction false} DownloadedPassedAlone(ts: Tables, codes: seq<string>, start: string, end: string, p: Provider)
    requires forall k :: 0 <= k < |codes| ==> AdaptCode(codes[k]) != ""
    requires forall i, j :: 0 <= i < j < |Symbols(codes)| ==> Symbols(codes)[i] != Symbols(codes)[j]
    ensures DownloadAll(ts, codes, start, end, p).downloaded == PassedAlone(ts, Symbols(codes), start, end, p)
    decreases |codes|
  {
    if codes != [] {
      var front := codes[..|codes| - 1];
      var sym := AdaptCode(codes[|codes| - 1]);
      var prev := DownloadAll(ts, front, start, end, p);
      var tail := if Sync(ts, sym, start, end, p).outcome.Pass? then [sym] else [];
      calc {
        DownloadAll(ts, codes, start, end, p).downloaded;
        == { LastDownloadAlone(ts, codes, start, end, p); }
        prev.downloaded + tail;
        == { DownloadedPassedAloneFront(ts, codes, start, end, p); }
        PassedAlone(ts, Symbols(front), start, end, p) + tail;
        == { PassedAloneSnoc(ts, Symbols(front), sym, start, end, p); }
        PassedAlone(ts, Symbols(front) + [sym], start, end, p);
        == { SymbolsSnoc(codes); }
        PassedAlone(ts, Symbols(codes), start, end, p);
      }
    }
  }

  /** The recursive case of `DownloadedPassedAlone`, on all codes but the last. */
  lemma DownloadedPassedAloneFront(ts: Tables, codes: seq<string>, start: string, end: string, p: Provider)
    requires codes != []
    requires forall k :: 0 <= k < |codes| ==> AdaptCode(codes[k]) != ""
    requires forall i, j :: 0 <= i < j < |Symbols(codes)| ==> Symbols(codes)[i] != Symbols(codes)[j]
    ensures DownloadAll(ts, codes[..|codes| - 1], start, end, p).downloaded
         == PassedAlone(ts, Symbols(codes[..|codes| - 1]), start, end, p)
    decreases |codes|, 0
  {
    var front := codes[..|codes| - 1];
    SymbolsFront(codes);
    assert forall k :: 0 <= k < |front| ==> front[k] == codes[k];
    DownloadedPassedAlone(ts, front, start, end, p);
  }

  /** With distinct symbols, the last code is downloaded exactly when its symbol's task would succeed alone. */
  lemma LastDownloadAlone(ts: Tables, codes: seq<string>, start: string, end: string, p: Provider)
    requires codes != []
    requires forall k :: 0 <= k < |codes| ==> AdaptCode(codes[k]) != ""
    requires forall i, j :: 0 <= i < j < |Symbols(codes)| ==> Symbols(codes)[i] != Symbols(codes)[j]
    ensures var sym := AdaptCode(codes[|codes| - 1]);
            DownloadAll(ts, codes, start, end, p).downloaded
              == DownloadAll(ts, codes[..|codes| - 1], start, end, p).downloaded
                 + if Sync(ts, sym, start, end, p).outcome.Pass? then [sym] else []
  {
    var front := codes[..|codes| - 1];
    var sym := AdaptCode(codes[|codes| - 1]);
    var prev := DownloadAll(ts, front, start, end, p);
    assert prev.tables == SyncAll(ts, Symbols(front), start, end, p).tables by {
      assert forall k :: 0 <= k < |front| ==> front[k] == codes[k];
      DownloadAllIsSyncAll(ts, front, start, end, p);
    }
    assert Sync(prev.tables, sym, start, end, p).outcome == Sync(ts, sym, start, end, p).outcome by {
      SymbolsFront(codes);
      LastSyncAlone(ts, Symbols(codes), start, end, p);
    }
    DownloadNextSynced(prev, codes[|codes| - 1], start, end, p);
  }

  /**
   * The count of `download` for a general provider: on digit codes with
   * distinct symbols, the downloaded symbols are exactly those whose
   * `download_stock` succeeds alone on the starting store, the failed ones
   * exactly those whose `download_stock` raises, both in order.
   */
  lemma DownloadCountsSolo(ts: Tables, codes: seq<string>, start: string, end: string, p: Provider)
    requires forall k :: 0 <= k < |codes| ==> AllDigits(codes[k])
    requires forall i, j :: 0 <= i < j < |Symbols(codes)| ==> Symbols(codes)[i] != Symbols(codes)[j]
    ensures DownloadAll(ts, codes, start, end, p).downloaded == PassedAlone(ts, Symbols(codes), start, end, p)
    ensures DownloadAll(ts, codes, start, end, p).failed == FailedAlone(ts, Symbols(codes), start, end, p)
    ensures forall s :: s in DownloadAll(ts, codes, start, end, p).downloaded <==>
              s in Symbols(codes) && Sync(ts, s, start, end, p).outcome.Pass?
  {
    forall k | 0 <= k < |codes| ensures AdaptCode(codes[k]) != "" {
      DigitCodeAdapts(codes[k]);
    }
    DownloadedPassedAlone(ts, codes, start, end, p);
    DownloadAllIsSyncAll(ts, codes, start, end, p);
    SyncAllFailures(ts, Symbols(codes), start, end, p);
    forall s ensures s in PassedAlone(ts, Symbols(codes), start, end, p) <==>
                     s in Symbols(codes) && Sync(ts, s, start, end, p).outcome.Pass? {
      PassedAloneMembers(ts, Symbols(codes), start, end, p, s);
    }
  }

  /**
   * With a provider that always returns an empty frame, every code with a
   * symbol is downloaded, in order, and the store is unchanged.
   */
  lemma {:induction false} DownloadAllEmpty(ts: Tables, codes: seq<string>, start: string, end: string, p: Provider)
    requires AlwaysEmpty(p)
    requires forall k :: 0 <= k < |codes| ==> AdaptCode(codes[k]) != ""
    ensures DownloadAll(ts, codes, start, end, p).tables == ts
    ensures DownloadAll(ts, codes, start, end, p).downloaded == Symbols(codes)
    decreases |codes|
  {
    if codes != [] {
      var front := codes[..|codes| - 1];
      var last := codes[|codes| - 1];
      assert forall k :: 0 <= k < |front| ==> front[k] == codes[k];
      DownloadAllEmpty(ts, front, start, end, p);
      DownloadNextEmpty(DownloadAll(ts, front, start, end, p), last, start, end, p);
    }
  }

  /** With a provider that always returns an empty frame, a code with a symbol is downloaded and stores nothing. */
  lemma DownloadNextEmpty(prev: Downloads, code: string, start: string, end: string, p: Provider)
    requires AlwaysEmpty(p)
    requires AdaptCode(code) != ""
    ensures DownloadNext(prev, code, start, end, p).downloaded == prev.downloaded + [AdaptCode(code)]
    ensures DownloadNext(prev, code, start, end, p).tables == prev.tables
  {
    SyncEmptyPasses(prev.tables, AdaptCode(code), start, end, p);
  }

  const NoValidCodes: string := "No valid codes provided."

  /** The reply of `download`: the count downloaded, or a fixed message when it is zero. */
  function Reply(downloaded: seq<string>): (r: string)
    ensures r == NoValidCodes <==> |downloaded| == 0
    ensures |downloaded| > 0 ==> |r| > 19 && r[..11] == "Downloaded " && r[|r| - 8..] == " stocks."
    ensures |downloaded| > 0 ==> AllDigits(r[11..|r| - 8]) && ParseNat(r[11..|r| - 8]) == |downloaded|
  {
    if |downloaded| == 0 then NoValidCodes
    else
      var count := NatToString(|downloaded|);
      var r := "Downloaded " + count + " stocks.";
      assert r[11..|r| - 8] == count;
      ParseNatToString(|downloaded|);
      assert r[0] != NoValidCodes[0];
      r
  }

  /** The fields of the submitted form; None for a field that was not sent. */
  datatype Form = Form(codes: Option<string>, start: Option<string>, end: Option<string>)

  /** A form field's value, or `default` when the field was not sent. */
  function FieldOr(field: Option<string>, default: string): string
  {
    if field.Some? then field.value else default
  }

  /** The body of the loop `for c in codes` of `download`, on the database. */
  method DownloadOne(db: Database, code: string, start: string, end: string, p: Provider,
                     downloaded: seq<string>, ghost prev: Downloads)
    returns (next: seq<string>)
    requires prev.tables == db.Snapshot() && prev.downloaded == downloaded
    modifies db
    ensures var r := DownloadNext(prev, code, start, end, p);
            db.Snapshot() == r.tables && next == r.downloaded
  {
    next := downloaded;
    var symbol := AdaptCode(code);
    if symbol != "" {
      var requests, outcome := DownloadStock(db, symbol, start, end, p);
      if outcome.Pass? {
        next := next + [symbol];
      }
    }
  }

  /** The loop `for c in codes` of `download`, on the database. */
  method DownloadCodes(db: Database, codes: seq<string>, start: string, end: string, p: Provider)
    returns (downloaded: seq<string>)
    modifies db
    ensures var r := DownloadAll(old(db.Snapshot()), codes, start, end, p);
            db.Snapshot() == r.tables && downloaded == r.downloaded
  {
    downloaded := [];
    ghost var before := db.Snapshot();
    var i := 0;
    while i < |codes|
      invariant 0 <= i <= |codes|
      invariant db.Snapshot() == DownloadAll(before, codes[..i], start, end, p).tables
      invariant downloaded == DownloadAll(before, codes[..i], start, end, p).downloaded
    {
      ghost var prev := DownloadAll(before, codes[..i], start, end, p);
      DownloadAllExtend(before, codes, start, end, p, i);
      downloaded := DownloadOne(db, codes[i], start, end, p, downloaded, prev);
      i := i + 1;
    }
    assert codes[..i] == codes;
  }

  /**
   * `download()`: the uploaded file is given by its lines (None when no
   * file with a name was sent) and `today` stands for the current date.
   * Returns the reply, the deduplicated codes in the order they were
   * processed, and the symbols downloaded.
   */
  method Download(db: Database, form: Form, file: Option<seq<string>>, today: string, p: Provider)
    returns (reply: string, codes: seq<string>, downloaded: seq<string>)
    modifies db
    ensures var collected := TextCodes(FieldOr(form.codes, "")) + (if file.Some? then FileCodesOf(file.value) else []);
            forall c :: c in codes <==> c in collected && AllDigits(c)
    ensures forall i, j :: 0 <= i < j < |codes| ==> codes[i] != codes[j]
    ensures var r := DownloadAll(old(db.Snapshot()), codes, FieldOr(form.start, "20200101"), FieldOr(form.end, today), p);
            db.Snapshot() == r.tables && downloaded == r.downloaded && |downloaded| + |r.failed| == |codes|
    ensures forall s :: s in downloaded ==> s != "" && exists k :: 0 <= k < |codes| && s == AdaptCode(codes[k])
    ensures reply == Reply(downloaded)
  {
    var collected := CollectCodes(form.codes, file);
    codes := UniqueDigitCodes(collected);
    var start := FieldOr(form.start, "20200101");
    var end := FieldOr(form.end, today);
    ghost var before := db.Snapshot();
    downloaded := DownloadCodes(db, codes, start, end, p);
    assert forall k :: 0 <= k < |codes| ==> AllDigits(codes[k]) by {
      forall k | 0 <= k < |codes| ensures AllDigits(codes[k]) { assert codes[k] in codes; }
    }
    DigitCodesNeverSkipped(before, codes, start, end, p);
    DownloadedAreSymbols(before, codes, start, end, p);
    reply := Reply(downloaded);
  }
}
