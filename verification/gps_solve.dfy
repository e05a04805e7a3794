/**
  GPSSolve.c: the epoch buffer and its decoder. `add_sentence` appends a
  sentence and a '\n' to a static 1024-byte buffer; `solve_once` splits the
  buffer into lines with strtok_my, hands each line to the parser of its
  type, filling the preview record set, then publishes the preview and
  clears the buffer.
 */
module GpsSolve {
  import opened Wrappers
  import opened Tokenizer
  import opened Sentence
  import opened Records
  import opened Nmea0183
  import opened Satellite

  /** BUFF_SIZE. */
  const BufferSize: nat := 1024

  // ------------------------------------------------------------ the guard

  /** The guard of add_sentence as written: `buff_pointer >= BUFF_SIZE || len > BUFF_SIZE - buff_pointer` rejects. */
  predicate FitsAsWritten(pointer: nat, len: nat) {
    pointer < BufferSize && len <= BufferSize - pointer
  }

  /**
    The guard the append needs: the sentence, its '\n' and the NUL that ends
    the buffer's C string all inside the 1024 bytes.
   */
  predicate Fits(pointer: nat, len: nat) {
    pointer + len + 1 < BufferSize
  }

  /** strcpy(dst + at, src) of `len` characters stays inside a `length`-character array: its NUL lands at `at + len`. */
  predicate CopyFits(at: nat, len: nat, length: nat) {
    at + len < length
  }

  /**
    As written, the guard accepts a sentence that exactly fills the rest of
    the buffer; the append then writes its terminator and '\n' at index
    `pointer + len`, which is 1024, one past the array: the precondition
    of Strcpy fails. A sentence one
    shorter is written in bounds but leaves no NUL, so the next solve_once's
    tokenizer reads index 1024.
   */
  lemma AppendOverrunsBuffer(pointer: nat)
    requires pointer < BufferSize
    ensures FitsAsWritten(pointer, BufferSize - pointer) && !CopyFits(pointer, BufferSize - pointer, BufferSize)
    ensures pointer < BufferSize - 1 ==>
      FitsAsWritten(pointer, BufferSize - pointer - 1) && !Fits(pointer, BufferSize - pointer - 1)
  {
  }

  /** The corrected guard accepts exactly what the written one accepts, minus the appends that leave no NUL. */
  lemma FitsSharpensGuard(pointer: nat, len: nat)
    ensures Fits(pointer, len) <==> FitsAsWritten(pointer, len) && pointer + len + 1 < BufferSize
    ensures Fits(pointer, len) ==> FitsAsWritten(pointer, len)
    ensures FitsAsWritten(pointer, len) && !Fits(pointer, len) ==> pointer + len + 1 >= BufferSize
    ensures Fits(pointer, len) ==> CopyFits(pointer, len, BufferSize)
  {
  }

  // ------------------------------------------------------------- dispatch

  /**
    The local state of solve_once: gsa_pointer, gsv_pointer,
    gsv_child_pointer and last_gsv_system (two characters, no terminator).
   */
  datatype Cursor = Cursor(gsaPointer: nat, gsvPointer: int, gsvChild: nat, lastGsvSystem: string)

  /** Their initial values: 0, -1, 0 and "00". */
  const StartCursor := Cursor(0, -1, 0, "00")

  /** The cursor and the preview record set while the lines are being visited. */
  datatype Progress = Progress(cursor: Cursor, data: GpsData)

  /**
    The GSV bookkeeping as written: the same talker as the previous GSV goes
    to the next fragment of the same slot, any other talker to fragment 0 of
    the next slot; the talker is remembered.
   */
  function AdvanceGsv(c: Cursor, talker: string): (n: Cursor)
    ensures n.gsaPointer == c.gsaPointer && n.lastGsvSystem == talker
    ensures talker == c.lastGsvSystem ==> n.gsvPointer == c.gsvPointer && n.gsvChild == c.gsvChild + 1
    ensures talker != c.lastGsvSystem ==> n.gsvPointer == c.gsvPointer + 1 && n.gsvChild == 0
  {
    if talker == c.lastGsvSystem then c.(gsvChild := c.gsvChild + 1, lastGsvSystem := talker)
    else c.(gsvPointer := c.gsvPointer + 1, gsvChild := 0, lastGsvSystem := talker)
  }

  /** The cursor after a run of GSV talkers. */
  function AdvanceAll(c: Cursor, talkers: seq<string>): Cursor {
    if talkers == [] then c else AdvanceGsv(AdvanceAll(c, talkers[..|talkers| - 1]), talkers[|talkers| - 1])
  }

  /** gsv[gsv_pointer][gsv_child_pointer] exists. */
  predicate InGsvBounds(c: Cursor) {
    0 <= c.gsvPointer < MaxKindOfSatellite && c.gsvChild < EachKindOfSatellite
  }

  function WithGga(d: GpsData, r: GgaRecord): GpsData { d.(gga := r) }

  function WithGsa(d: GpsData, i: nat, r: GsaRecord): GpsData
    requires WellShaped(d) && i < MaxKindOfSatellite
  {
    d.(satellites := d.satellites.(gsa := d.satellites.gsa[i := r]))
  }

  function WithGsv(d: GpsData, i: nat, j: nat, r: GsvRecord): GpsData
    requires WellShaped(d) && i < MaxKindOfSatellite && j < EachKindOfSatellite
  {
    d.(satellites := d.satellites.(gsv := d.satellites.gsv[i := d.satellites.gsv[i][j := r]]))
  }

  /** The sentence types solve_once tells apart. */
  datatype Kind = Gga | Gll | Gsa | Gsv | Rmc | Vtg | Zda | Skipped

  /**
    The `strncmp(token + 3, "XXX,", 4)` chain of solve_once, in its order;
    TXT and unknown types are skipped.
   */
  function KindOf(line: string): (k: Kind)
    ensures k == Gga <==> HasType(line, "GGA")
    ensures k == Gsa ==> HasType(line, "GSA")
    ensures k == Gsv ==> HasType(line, "GSV")
  {
    if HasType(line, "GGA") then Gga
    else if HasType(line, "GLL") then Gll
    else if HasType(line, "GSA") then Gsa
    else if HasType(line, "GSV") then Gsv
    else if HasType(line, "RMC") then Rmc
    else if HasType(line, "VTG") then Vtg
    else if HasType(line, "ZDA") then Zda
    else Skipped
  }

  /**
    One line of solve_once's loop. The type at offset 3 picks the parser;
    return codes are ignored. The i-th GSA line goes to gsa[i] while i < 3,
    later ones are skipped. A GSV line goes to the slot and fragment the
    bookkeeping picks, stored only when that cell exists (the C stores it
    unchecked). Skipped lines change nothing.
   */
  function Step(line: string, c: Cursor, d: GpsData): (r: Progress)
    requires WellShaped(d)
    ensures WellShaped(r.data)
  {
    match KindOf(line)
    case Gga => Progress(c, WithGga(d, GgaParsed(line, d.gga)))
    case Gll => Progress(c, d.(gll := GllParsed(line, d.gll)))
    case Gsa =>
      if c.gsaPointer >= MaxKindOfSatellite then Progress(c, d)
      else Progress(c.(gsaPointer := c.gsaPointer + 1),
                    WithGsa(d, c.gsaPointer, GsaParsed(line, d.satellites.gsa[c.gsaPointer])))
    case Gsv =>
      var n := AdvanceGsv(c, line[1..3]);
      if InGsvBounds(n) then
        Progress(n, WithGsv(d, n.gsvPointer, n.gsvChild,
                            GsvParsed(line, d.satellites.gsv[n.gsvPointer][n.gsvChild])))
      else Progress(n, d)
    case Rmc => Progress(c, d.(rmc := RmcParsed(line, d.rmc)))
    case Vtg => Progress(c, d.(vtg := VtgParsed(line, d.vtg)))
    case Zda => Progress(c, d.(zda := ZdaParsed(line, d.zda)))
    case Skipped => Progress(c, d)
  }

  /** The lines of an epoch visited in order. */
  function DispatchAll(lines: seq<string>, c: Cursor, d: GpsData): (r: Progress)
    requires WellShaped(d)
    ensures WellShaped(r.data)
  {
    if lines == [] then Progress(c, d)
    else
      var p := DispatchAll(lines[..|lines| - 1], c, d);
      Step(lines[|lines| - 1], p.cursor, p.data)
  }

  /** The preview after an epoch of `lines`, starting from the previous epoch's preview. */
  function Epoch(lines: seq<string>, d: GpsData): (r: GpsData)
    requires WellShaped(d)
    ensures WellShaped(r)
  {
    DispatchAll(lines, StartCursor, d).data
  }

  lemma DispatchAllSnoc(lines: seq<string>, line: string, c: Cursor, d: GpsData)
    requires WellShaped(d)
    ensures DispatchAll(lines + [line], c, d) ==
      Step(line, DispatchAll(lines, c, d).cursor, DispatchAll(lines, c, d).data)
  {
    assert (lines + [line])[..|lines|] == lines;
  }

  /** A line dispatched after `lines` extends their dispatch by one step. */
  lemma DispatchAllStep(lines: seq<string>, line: string, c: Cursor, d: GpsData, p: Progress, q: Progress)
    requires WellShaped(d) && p == DispatchAll(lines, c, d)
    requires q == Step(line, p.cursor, p.data)
    ensures q == DispatchAll(lines + [line], c, d)
  {
    DispatchAllSnoc(lines, line, c, d);
  }

  /** One line dispatched by calling the parser methods. */
  method DispatchLine(line: string, c: Cursor, d: GpsData) returns (next: Cursor, e: GpsData)
    requires '\0' !in line && WellShaped(d)
    ensures Progress(next, e) == Step(line, c, d)
  {
    next, e := c, d;
    var code;
    match KindOf(line) {
      case Gga =>
        var r;
        code, r := ParseGga(line, d.gga);
        e := WithGga(d, r);
      case Gll =>
        var r;
        code, r := ParseGll(line, d.gll);
        e := d.(gll := r);
      case Gsa =>
        if c.gsaPointer < MaxKindOfSatellite {
          var r;
          code, r := ParseGsa(line, d.satellites.gsa[c.gsaPointer]);
          e := WithGsa(d, c.gsaPointer, r);
          next := c.(gsaPointer := c.gsaPointer + 1);
        }
      case Gsv =>
        next := AdvanceGsv(c, line[1..3]);
        if InGsvBounds(next) {
          var r;
          code, r := ParseGsv(line, d.satellites.gsv[next.gsvPointer][next.gsvChild]);
          e := WithGsv(d, next.gsvPointer, next.gsvChild, r);
        }
      case Rmc =>
        var r;
        code, r := ParseRmc(line, d.rmc);
        e := d.(rmc := r);
      case Vtg =>
        var r;
        code, r := ParseVtg(line, d.vtg);
        e := d.(vtg := r);
      case Zda =>
        var r;
        code, r := ParseZda(line, d.zda);
        e := d.(zda := r);
      case Skipped =>
    }
  }

  // ------------------------------------------------------- epoch properties

  /**
    A line carries at most one type, so the chain's order does not matter:
    each kind is exactly the lines with that type at offset 3.
   */
  lemma KindOfType(line: string)
    ensures KindOf(line) == Gll <==> HasType(line, "GLL")
    ensures KindOf(line) == Gsa <==> HasType(line, "GSA")
    ensures KindOf(line) == Gsv <==> HasType(line, "GSV")
    ensures KindOf(line) == Rmc <==> HasType(line, "RMC")
    ensures KindOf(line) == Vtg <==> HasType(line, "VTG")
    ensures KindOf(line) == Zda <==> HasType(line, "ZDA")
  {
    if |line| >= 7 {
      var t := line[3..7];
      assert HasType(line, "GGA") <==> t == "GGA,";
      assert HasType(line, "GLL") <==> t == "GLL,";
      assert HasType(line, "GSA") <==> t == "GSA,";
      assert HasType(line, "GSV") <==> t == "GSV,";
      assert HasType(line, "RMC") <==> t == "RMC,";
      assert HasType(line, "VTG") <==> t == "VTG,";
      assert HasType(line, "ZDA") <==> t == "ZDA,";
    }
  }

  /** The number of lines of kind `k`. */
  function CountKind(lines: seq<string>, k: Kind): (n: nat)
    ensures n <= |lines|
  {
    if lines == [] then 0
    else CountKind(lines[..|lines| - 1], k) + (if KindOf(lines[|lines| - 1]) == k then 1 else 0)
  }

  function Min(a: nat, b: nat): nat { if a <= b then a else b }

  /**
    GSA slots: after an epoch gsa_pointer is the number of GSA lines, capped
    at 3, and the slots from there on keep the previous epoch's records.
   */
  lemma {:induction false} GsaSlotsFilled(lines: seq<string>, c: Cursor, d: GpsData)
    requires WellShaped(d) && c.gsaPointer <= MaxKindOfSatellite
    ensures var r := DispatchAll(lines, c, d);
      r.cursor.gsaPointer == Min(MaxKindOfSatellite, c.gsaPointer + CountKind(lines, Gsa)) &&
      forall i :: r.cursor.gsaPointer <= i < MaxKindOfSatellite ==> r.data.satellites.gsa[i] == d.satellites.gsa[i]
  {
    if lines != [] {
      var front := lines[..|lines| - 1];
      GsaSlotsFilled(front, c, d);
    }
  }

  /**
    The i-th GSA line of an epoch (counting from 0), for i < 3, is parsed
    into gsa[i], whatever the earlier lines were.
   */
  lemma GsaLineLandsInSlot(lines: seq<string>, line: string, d: GpsData)
    requires WellShaped(d) && KindOf(line) == Gsa
    requires CountKind(lines, Gsa) < MaxKindOfSatellite
    ensures var before := DispatchAll(lines, StartCursor, d).data;
      Epoch(lines + [line], d).satellites.gsa[CountKind(lines, Gsa)] ==
        GsaParsed(line, before.satellites.gsa[CountKind(lines, Gsa)])
  {
    GsaSlotsFilled(lines, StartCursor, d);
    DispatchAllSnoc(lines, line, StartCursor, d);
    var p := DispatchAll(lines, StartCursor, d);
    var i := CountKind(lines, Gsa);
    assert p.cursor.gsaPointer == i;
    var r := GsaParsed(line, p.data.satellites.gsa[i]);
    assert Step(line, p.cursor, p.data).data == WithGsa(p.data, i, r);
  }

  /** The talkers of the GSV lines, in order. */
  function GsvTalkers(lines: seq<string>): seq<string> {
    if lines == [] then []
    else
      var line := lines[|lines| - 1];
      GsvTalkers(lines[..|lines| - 1]) + (if KindOf(line) == Gsv then [line[1..3]] else [])
  }

  /** The GSV bookkeeping depends on nothing but the talkers of the GSV lines. */
  lemma {:induction false} GsvCursorFollowsTalkers(lines: seq<string>, c: Cursor, d: GpsData)
    requires WellShaped(d)
    ensures var r := DispatchAll(lines, c, d).cursor;
      var a := AdvanceAll(c, GsvTalkers(lines));
      r.gsvPointer == a.gsvPointer && r.gsvChild == a.gsvChild && r.lastGsvSystem == a.lastGsvSystem
  {
    if lines != [] {
      var front := lines[..|lines| - 1];
      var line := lines[|lines| - 1];
      GsvCursorFollowsTalkers(front, c, d);
      var p := DispatchAll(front, c, d);
      assert DispatchAll(lines, c, d) == Step(line, p.cursor, p.data);
      if KindOf(line) == Gsv {
        var ts := GsvTalkers(front) + [line[1..3]];
        assert GsvTalkers(lines) == ts;
        assert ts[..|ts| - 1] == GsvTalkers(front);
        assert Step(line, p.cursor, p.data).cursor == AdvanceGsv(p.cursor, line[1..3]);
      } else {
        assert GsvTalkers(lines) == GsvTalkers(front) + [];
        assert GsvTalkers(front) + [] == GsvTalkers(front);
      }
    }
  }

  /**
    A GSV line changes at most the one gsv cell the bookkeeping picks, and
    only when that cell exists; every other cell keeps its record.
   */
  lemma GsvStoreStaysInBounds(line: string, c: Cursor, d: GpsData)
    requires WellShaped(d) && KindOf(line) == Gsv
    ensures var n := AdvanceGsv(c, line[1..3]);
      var r := Step(line, c, d);
      r.cursor == n &&
      (InGsvBounds(n) ==> r.data.satellites.gsv[n.gsvPointer][n.gsvChild] ==
                           GsvParsed(line, d.satellites.gsv[n.gsvPointer][n.gsvChild])) &&
      (forall i, j ::
         0 <= i < MaxKindOfSatellite && 0 <= j < EachKindOfSatellite && !(InGsvBounds(n) && i == n.gsvPointer && j == n.gsvChild)
         ==> r.data.satellites.gsv[i][j] == d.satellites.gsv[i][j]) &&
      r.data.satellites.gsa == d.satellites.gsa && r.data.gga == d.gga && r.data.rmc == d.rmc
  {
  }

  /**
    As written the GSV indices run off gsv[3][4]: four different talkers
    reach slot 3, five fragments of one talker reach fragment 4, and a first
    GSV whose talker is "00" is stored at slot -1.
   */
  lemma GsvIndicesEscape()
    ensures AdvanceAll(StartCursor, ["GP", "GL", "GA", "GB"]).gsvPointer == 3
    ensures AdvanceAll(StartCursor, ["GP", "GP", "GP", "GP", "GP"]).gsvChild == 4
    ensures AdvanceAll(StartCursor, ["00"]).gsvPointer == -1
  {
    var c1 := AdvanceAll(StartCursor, ["GP"]);
    assert ["GP"][..0] == [];
    assert c1 == Cursor(0, 0, 0, "GP");
    assert ["GP", "GL"][..1] == ["GP"];
    assert ["GP", "GL", "GA"][..2] == ["GP", "GL"];
    assert ["GP", "GL", "GA", "GB"][..3] == ["GP", "GL", "GA"];
    assert ["GP", "GP"][..1] == ["GP"];
    assert ["GP", "GP", "GP"][..2] == ["GP", "GP"];
    assert ["GP", "GP", "GP", "GP"][..3] == ["GP", "GP", "GP"];
    assert ["GP", "GP", "GP", "GP", "GP"][..4] == ["GP", "GP", "GP", "GP"];
    assert ["00"][..0] == [];
  }

  /** Consecutive fragments of one talker share a slot; a new talker opens the next one. */
  lemma GsvGroupingExample()
    ensures var c := AdvanceAll(StartCursor, ["GP", "GP", "GP", "GL", "GL"]);
      c.gsvPointer == 1 && c.gsvChild == 1 && c.lastGsvSystem == "GL"
  {
    assert ["GP"][..0] == [];
    assert ["GP", "GP"][..1] == ["GP"];
    assert ["GP", "GP", "GP"][..2] == ["GP", "GP"];
    assert ["GP", "GP", "GP", "GL"][..3] == ["GP", "GP", "GP"];
    assert ["GP", "GP", "GP", "GL", "GL"][..4] == ["GP", "GP", "GP", "GL"];
    assert AdvanceAll(StartCursor, ["GP", "GP", "GP"]) == Cursor(0, 0, 2, "GP");
  }

  /** A line changes only the record of its own kind; a skipped line changes nothing. */
  lemma StepFrame(line: string, c: Cursor, d: GpsData)
    requires WellShaped(d)
    ensures var r := Step(line, c, d).data;
      (KindOf(line) != Gga ==> r.gga == d.gga) &&
      (KindOf(line) != Gll ==> r.gll == d.gll) &&
      (KindOf(line) != Rmc ==> r.rmc == d.rmc) &&
      (KindOf(line) != Vtg ==> r.vtg == d.vtg) &&
      (KindOf(line) != Zda ==> r.zda == d.zda) &&
      (KindOf(line) != Gsa ==> r.satellites.gsa == d.satellites.gsa) &&
      (KindOf(line) != Gsv ==> r.satellites.gsv == d.satellites.gsv) &&
      (KindOf(line) == Skipped ==> Step(line, c, d) == Progress(c, d))
  {
  }

  /**
    Nothing resets the preview: a record whose type no line of the epoch
    carries keeps the previous epoch's value.
   */
  lemma {:induction false} AbsentTypesKept(lines: seq<string>, c: Cursor, d: GpsData)
    requires WellShaped(d)
    ensures var r := DispatchAll(lines, c, d).data;
      (CountKind(lines, Gga) == 0 ==> r.gga == d.gga) &&
      (CountKind(lines, Gll) == 0 ==> r.gll == d.gll) &&
      (CountKind(lines, Rmc) == 0 ==> r.rmc == d.rmc) &&
      (CountKind(lines, Vtg) == 0 ==> r.vtg == d.vtg) &&
      (CountKind(lines, Zda) == 0 ==> r.zda == d.zda) &&
      (CountKind(lines, Gsa) == 0 ==> r.satellites.gsa == d.satellites.gsa) &&
      (CountKind(lines, Gsv) == 0 ==> r.satellites.gsv == d.satellites.gsv)
  {
    if lines != [] {
      var front := lines[..|lines| - 1];
      AbsentTypesKept(front, c, d);
      var p := DispatchAll(front, c, d);
      StepFrame(lines[|lines| - 1], p.cursor, p.data);
    }
  }

  /** One more line of the epoch dispatched: the dispatch of the lines so far grows by that line. */
  method DispatchNext(line: string, c: Cursor, e: GpsData, ghost lines: seq<string>, ghost d: GpsData)
    returns (next: Cursor, f: GpsData)
    requires '\0' !in line && WellShaped(d)
    requires Progress(c, e) == DispatchAll(lines, StartCursor, d)
    ensures Progress(next, f) == DispatchAll(lines + [line], StartCursor, d)
  {
    next, f := DispatchLine(line, c, e);
    DispatchAllStep(lines, line, StartCursor, d, Progress(c, e), Progress(next, f));
  }

  /**
    One strtok_my call of solve_once's loop, on the buffer whose unread part
    `buf[rest..len)` is still the text from `rest` on: it returns the next
    line, which holds no NUL, and the text after it stays as it was.
   */
  method NextLine(buf: array<char>, rest: nat, len: nat, ghost text: string, ghost lines: seq<string>)
    returns (token: Option<string>, next: nat)
    requires rest <= len < buf.Length && |text| == len && '\0' !in text
    requires buf[len] == '\0' && buf[rest..len] == text[rest..]
    requires Segments(text, '\n') == lines + Segments(text[rest..], '\n')
    modifies buf
    ensures buf[len..] == old(buf[len..])
    ensures token.None? ==> next == rest && Segments(text[rest..], '\n') == [] && buf[..] == old(buf[..])
    ensures token.Some? ==>
      rest < next <= len && '\0' !in token.value && buf[next..len] == text[next..] &&
      Segments(text, '\n') == (lines + [token.value]) + Segments(text[next..], '\n')
  {
    NoNulInSuffix(buf, rest, len, text);
    ghost var before := buf[..];
    token, next := StrtokMy(buf, rest, '\n', len);
    if token.Some? {
      SegmentsAdvance(text, rest, lines, token.value, next, '\n');
      CutKeepsRest(before, buf[..], rest, next - 1, len, text);
      WriteBelowKeepsSuffix(before, buf[..], next - 1, '\0', len);
      TokenHasNoNul(before, rest, len, next - 1 - rest);
    } else {
      SegmentsNone(text[rest..], '\n');
    }
  }

  /**
    The line loop of solve_once over the buffer `buf` holding `len`
    characters: strtok_my cuts it at each '\n' and every line is dispatched,
    in order, into the preview `d`.
   */
  method DispatchBuffer(buf: array<char>, len: nat, d: GpsData) returns (e: GpsData, ghost lines: seq<string>)
    requires CString(buf, 0, len) && WellShaped(d)
    modifies buf
    ensures lines == Segments(old(buf[..len]), '\n')
    ensures e == Epoch(lines, d)
    ensures buf[len..] == old(buf[len..])
  {
    ghost var text := buf[..len];
    assert '\0' !in text by {
      forall k | 0 <= k < len ensures text[k] != '\0' {
        assert text[k] == buf[k];
      }
    }
    lines := [];
    e := d;
    var rest := 0;
    var cursor := StartCursor;
    var done := false;
    while !done
      invariant rest <= len < buf.Length
      invariant buf[len..] == old(buf[len..]) && buf[len] == '\0'
      invariant buf[rest..len] == text[rest..]
      invariant Segments(text, '\n') == lines + Segments(text[rest..], '\n')
      invariant Progress(cursor, e) == DispatchAll(lines, StartCursor, d)
      invariant done ==> Segments(text[rest..], '\n') == []
      decreases len - rest, if done then 0 else 1
    {
      var token, next := NextLine(buf, rest, len, text, lines);
      match token {
        case None =>
          done := true;
        case Some(line) =>
          cursor, e := DispatchNext(line, cursor, e, lines, d);
          lines := lines + [line];
          rest := next;
      }
    }
    assert lines + [] == lines;
  }

  /** strcpy(dst + at, src): the characters of `src` and a terminating NUL; nothing else changes. */
  method Strcpy(dst: array<char>, at: nat, src: string)
    requires CopyFits(at, |src|, dst.Length)
    modifies dst
    ensures dst[..] == old(dst[..at]) + src + ['\0'] + old(dst[at + |src| + 1..])
  {
    for i := 0 to |src|
      invariant forall j :: 0 <= j < at ==> dst[j] == old(dst[j])
      invariant forall j :: 0 <= j < i ==> dst[at + j] == src[j]
      invariant forall j :: at + i <= j < dst.Length ==> dst[j] == old(dst[j])
    {
      dst[at + i] := src[i];
    }
    dst[at + |src|] := '\0';
    assert dst[..] == old(dst[..at]) + src + ['\0'] + old(dst[at + |src| + 1..]);
  }

  /** memset(buf, 0, n). */
  method Memset(buf: array<char>, n: nat)
    requires n <= buf.Length
    modifies buf
    ensures buf[..] == seq(n, _ => '\0') + old(buf[n..])
  {
    for i := 0 to n
      invariant buf[..] == seq(i, _ => '\0') + old(buf[i..])
    {
      buf[i] := '\0';
    }
  }

  /** Zeroing the used bytes of a buffer whose other bytes are NUL leaves it all NUL. */
  lemma AllCleared(s: seq<char>, n: nat, rest: seq<char>)
    requires s == seq(n, _ => '\0') + rest
    requires forall j :: 0 <= j < |rest| ==> rest[j] == '\0'
    ensures forall j :: 0 <= j < |s| ==> s[j] == '\0'
  {
  }

  /**
    The buffer after an append: the old contents, the sentence, its '\n',
    and the old NULs after them.
   */
  lemma AppendedLayout(before: seq<char>, after: seq<char>, pointer: nat, sentence: string)
    requires |before| == BufferSize && Fits(pointer, |sentence|) && '\0' !in sentence
    requires forall j :: 0 <= j < pointer ==> before[j] != '\0'
    requires forall j :: pointer <= j < BufferSize ==> before[j] == '\0'
    requires after == (before[..pointer] + sentence + ['\0'] + before[pointer + |sentence| + 1..])[pointer + |sentence| := '\n']
    ensures after[..pointer + |sentence| + 1] == before[..pointer] + sentence + ['\n']
    ensures forall j :: 0 <= j < pointer + |sentence| + 1 ==> after[j] != '\0'
    ensures forall j :: pointer + |sentence| + 1 <= j < BufferSize ==> after[j] == '\0'
  {
    var n := pointer + |sentence|;
    forall j | 0 <= j < n + 1 ensures after[j] != '\0' {
      if j < pointer {
        assert after[j] == before[j];
      } else if j < n {
        assert after[j] == sentence[j - pointer];
      }
    }
    forall j | n + 1 <= j < BufferSize ensures after[j] == '\0' {
      assert after[j] == before[j];
    }
  }

  // ------------------------------------------------------------ the session

  /**
    The static state of GPSSolve.c: sovle_buff, buff_pointer,
    gps_data_preview and gps_data. `pending` is the ghost list of sentences
    appended since the last solve_once.
   */
  class GpsSession {
    const buff: array<char>
    var buffPointer: nat
    var preview: GpsData
    var data: GpsData
    ghost var pending: seq<string>

    /**
      The buffer holds the pending sentences, each ended by '\n', and NULs
      after them (at least one); the published record set equals the preview
      between calls.
     */
    ghost predicate Valid()
      reads this, buff
    {
      buff.Length == BufferSize && buffPointer < BufferSize &&
      (forall j :: 0 <= j < buffPointer ==> buff[j] != '\0') &&
      (forall j :: buffPointer <= j < BufferSize ==> buff[j] == '\0') &&
      buff[..buffPointer] == JoinEnded(pending, '\n') &&
      WellShaped(preview) && data == preview
    }

    /** The text waiting to be decoded. */
    function Contents(): string
      reads this, buff
      requires Valid()
    {
      buff[..buffPointer]
    }

    /** Static storage: a zeroed buffer and zeroed record sets. */
    constructor ()
      ensures Valid() && buffPointer == 0 && pending == []
      ensures preview == ZeroData && data == ZeroData
    {
      buff := new char[BufferSize](_ => '\0');
      buffPointer := 0;
      preview := ZeroData;
      data := ZeroData;
      pending := [];
    }

    /**
      add_sentence, with the corrected guard: a sentence that fits is copied
      at buff_pointer and followed by '\n'; one that does not changes nothing.
     */
    method AddSentence(sentence: string)
      requires Valid() && '\0' !in sentence
      modifies this, buff
      ensures Valid()
      ensures preview == old(preview) && data == old(data)
      ensures Fits(old(buffPointer), |sentence|) ==>
        Contents() == old(Contents()) + sentence + ['\n'] && pending == old(pending) + [sentence]
      ensures !Fits(old(buffPointer), |sentence|) ==>
        buffPointer == old(buffPointer) && buff[..] == old(buff[..]) && pending == old(pending)
    {
      var len := |sentence|;
      if !Fits(buffPointer, len) {
        return;
      }
      ghost var before := buff[..];
      Strcpy(buff, buffPointer, sentence);
      buffPointer := buffPointer + len + 1;
      buff[buffPointer - 1] := '\n';
      AppendedLayout(before, buff[..], old(buffPointer), sentence);
      JoinEndedSnoc(pending, sentence, '\n');
      pending := pending + [sentence];
    }

    /**
      solve_once: every '\n'-ended line of the buffer is dispatched in order
      into the preview, the preview is published, the used bytes are zeroed
      and the buffer is empty again. When no appended sentence held a '\n'
      of its own, the lines are exactly the appended sentences.
     */
    method SolveOnce()
      requires Valid()
      modifies this, buff
      ensures Valid()
      ensures buffPointer == 0 && pending == []
      ensures preview == Epoch(Segments(old(Contents()), '\n'), old(preview))
      ensures (forall k :: 0 <= k < |old(pending)| ==> '\n' !in old(pending)[k]) ==>
        preview == Epoch(old(pending), old(preview))
      ensures data == preview
      ensures old(buffPointer) == 0 ==> data == old(data)
    {
      assert CString(buff, 0, buffPointer);
      ghost var lines;
      preview, lines := DispatchBuffer(buff, buffPointer, preview);
      data := preview;
      ghost var rest := buff[buffPointer..];
      Memset(buff, buffPointer);
      AllCleared(buff[..], buffPointer, rest);
      if forall k :: 0 <= k < |pending| ==> '\n' !in pending[k] {
        SegmentsOfJoinEnded(pending, [], '\n');
        assert JoinEnded(pending, '\n') + [] == JoinEnded(pending, '\n');
      }
      buffPointer := 0;
      pending := [];
    }
  }
}
