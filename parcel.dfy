/** The parcel record of parcel.py: the deadline parse done when a parcel is
    built, the special-instruction parser, the setters and the comparison
    operators (priority for ordering, id for equality). */
module Parcels {
  import opened Util
  import opened Tables
  import opened Graphs

  // ---------------------------------------------------------------------
  // Deadlines (parcel.py:26-36)

  /** A parsed deadline: 'EOD' means none; Malformed is where int() raises. */
  datatype Deadline = NoDeadline | At(t: int) | Malformed

  /** Strip ' AM', ' PM' and ':' from the text, read the rest as an integer
      and add 1200 when 'PM' occurs anywhere in the text. */
  function ParseDeadline(text: string): Deadline
  {
    if text == "EOD" then NoDeadline
    else
      var offset := if HasSubstring(text, "PM") then 1200 else 0;
      match ParseInt(Replace(Replace(Replace(text, " AM", ""), " PM", ""), ":", ""))
      case None => Malformed
      case Some(v) => At(v + offset)
  }

  /** The deadline attribute the text leaves on the parcel. */
  function DeadlineValue(d: Deadline): Option<int> {
    if d.At? then Some(d.t) else None
  }

  function TwoDigits(m: nat): (s: string)
    requires m < 100
    ensures |s| == 2 && AllDigits(s)
  {
    [DigitChar(m / 10), DigitChar(m % 10)]
  }

  /** A deadline written the way the parcel file writes them: 'H:MM AM'. */
  function DeadlineText(h: nat, m: nat, pm: bool): string
    requires m < 100
  {
    NatToString(h) + ":" + TwoDigits(m) + (if pm then " PM" else " AM")
  }

  /** Only the afternoon form contains 'PM'. */
  lemma DeadlinePmTest(h: nat, m: nat, pm: bool)
    requires m < 100
    ensures HasSubstring(DeadlineText(h, m, pm), "PM") == pm
  {
    var p := NatToString(h) + ":" + TwoDigits(m);
    var suffix := if pm then " PM" else " AM";
    var text := DeadlineText(h, m, pm);
    assert text == p + suffix;
    if pm {
      assert text == p + " " + "PM" + [];
      HasSubstringOfPiece(p + " ", "PM", []);
    } else {
      NoPInClockText(h, m);
      assert forall i :: 0 <= i < |text| ==> text[i] != 'P' by {
        assert forall i :: |p| <= i < |text| ==> text[i] == suffix[i - |p|];
      }
      NoSubstringWithoutFirst(text, "PM");
    }
  }

  /** 'H:MM' holds only digits and the colon. */
  lemma NoPInClockText(h: nat, m: nat)
    requires m < 100
    ensures forall i :: 0 <= i < |NatToString(h) + ":" + TwoDigits(m)| ==>
      var c := (NatToString(h) + ":" + TwoDigits(m))[i]; IsDigit(c) || c == ':'
  {
    var hs := NatToString(h);
    var mm := TwoDigits(m);
    var p := hs + ":" + mm;
    assert forall i :: 0 <= i < |hs| ==> p[i] == hs[i];
    assert forall i :: |hs| + 1 <= i < |p| ==> p[i] == mm[i - |hs| - 1];
  }

  /** Removing ' AM' and then ' PM' takes off the suffix of a text with no
      space before it. */
  lemma StripMeridiem(p: string, pm: bool)
    requires ' ' !in p
    ensures Replace(Replace(p + (if pm then " PM" else " AM"), " AM", ""), " PM", "") == p
  {
    var suffix := if pm then " PM" else " AM";
    ReplaceSkipPrefix(p, suffix, " AM", "");
    if pm {
      var x := " PM";
      assert x[..3][1] == 'P' && " AM"[1] == 'A';
      assert x[1..] == "PM" by {
        assert |x[1..]| == 2 && x[1..][0] == 'P' && x[1..][1] == 'M';
      }
      ReplaceShort("PM", " AM", "");
      assert x == [x[0]] + x[1..];
      ReplaceSkipPrefix(p, " PM", " PM", "");
      assert Replace(" PM", " PM", "") == "";
    } else {
      assert Replace(" AM", " AM", "") == "";
      assert p + [] == p;
      ReplaceSkipPrefix(p, [], " PM", "");
    }
  }

  /** Removing ':' from 'H:MM' leaves the digits H and MM. */
  lemma StripColon(hs: string, mm: string)
    requires ':' !in hs && ':' !in mm
    ensures Replace(hs + ":" + mm, ":", "") == hs + mm
  {
    ReplaceCharByNothing(hs + ":" + mm, ':');
    calc {
      Without(hs + ":" + mm, ':');
      { WithoutAppend(hs + ":", mm, ':'); }
      Without(hs + ":", ':') + Without(mm, ':');
      { WithoutAppend(hs, ":", ':'); }
      Without(hs, ':') + Without(":", ':') + Without(mm, ':');
      { WithoutAbsent(hs, ':'); WithoutAbsent(mm, ':'); assert Without(":", ':') == []; }
      hs + [] + mm;
      { assert hs + [] == hs; }
      hs + mm;
    }
  }

  /** Removing ' AM', ' PM' and ':' from 'H:MM AM' leaves the digits H and MM. */
  lemma DeadlineStripped(h: nat, m: nat, pm: bool)
    requires m < 100
    ensures Replace(Replace(Replace(DeadlineText(h, m, pm), " AM", ""), " PM", ""), ":", "")
         == NatToString(h) + TwoDigits(m)
  {
    var hs := NatToString(h);
    var mm := TwoDigits(m);
    var p := hs + ":" + mm;
    assert DeadlineText(h, m, pm) == p + (if pm then " PM" else " AM");
    NoPInClockText(h, m);
    assert ' ' !in p;
    StripMeridiem(p, pm);
    assert ':' !in hs && ':' !in mm;
    StripColon(hs, mm);
  }

  /** The digits of H followed by two digits of MM read as H*100 + MM. */
  lemma ClockDigitsValue(h: nat, m: nat)
    requires m < 100
    ensures ParseInt(NatToString(h) + TwoDigits(m)) == Some(h * 100 + m)
  {
    var hs := NatToString(h);
    var mm := TwoDigits(m);
    DigitsValueOfNat(h);
    assert hs + mm == hs + [mm[0], mm[1]];
    DigitsValueAppendTwo(hs, mm[0], mm[1]);
    NoSpaceInDigits(hs + mm);
  }

  /** 'H:MM AM' reads as H*100 + MM and 'H:MM PM' as that plus 1200, so
      '12:00 PM' reads as 2400 (parcel.py:30-36). */
  lemma ParseFormattedDeadline(h: nat, m: nat, pm: bool)
    requires m < 100
    ensures ParseDeadline(DeadlineText(h, m, pm)) == At(h * 100 + m + if pm then 1200 else 0)
  {
    assert |DeadlineText(h, m, pm)| >= 6;
    DeadlinePmTest(h, m, pm);
    DeadlineStripped(h, m, pm);
    ClockDigitsValue(h, m);
  }

  lemma DeadlineEndOfDay()
    ensures ParseDeadline("EOD") == NoDeadline
  {
  }

  /** '10:30 AM' gives 1030. */
  lemma DeadlineMorning()
    ensures ParseDeadline("10:30 AM") == At(1030)
  {
    ParseFormattedDeadline(10, 30, false);
    assert NatToString(10) == "10";
    assert DeadlineText(10, 30, false) == "10:30 AM";
  }

  /** '5:00 PM' gives 1700. */
  lemma DeadlineAfternoon()
    ensures ParseDeadline("5:00 PM") == At(1700)
  {
    ParseFormattedDeadline(5, 0, true);
    assert DeadlineText(5, 0, true) == "5:00 PM";
  }

  /** Noon is read as 2400, since the PM offset is added to 12 as well. */
  lemma DeadlineNoon()
    ensures ParseDeadline("12:00 PM") == At(2400)
  {
    ParseFormattedDeadline(12, 0, true);
    assert NatToString(12) == "12";
    assert DeadlineText(12, 0, true) == "12:00 PM";
  }

  // ---------------------------------------------------------------------
  // Special instructions (parcel.py:70-110)

  /** The attributes parse_special_instructions may set. Python's None for
      `delayed`, `wrong_address` and `companion_parcels` is false here. */
  datatype InstrFields = InstrFields(
    delayed: bool,
    arrivalTime: Option<int>,
    requiredTruck: Option<int>,
    wrongAddress: bool,
    companionParcels: bool,
    companions: seq<int>,
    linked: bool)

  const NoInstructions := InstrFields(false, None, None, false, false, [], false)

  /** The DELAYED loop: every word holding ':' sets the arrival time to the
      word without colons read as an integer, plus the offset. The flag is
      false where int() raises. */
  function ScanArrival(words: seq<string>, offset: int, arrival: Option<int>): (Option<int>, bool)
  {
    if words == [] then (arrival, true)
    else if ':' in words[0] then
      match ParseInt(Replace(words[0], ":", ""))
      case None => (arrival, false)
      case Some(v) => ScanArrival(words[1..], offset, Some(v + offset))
    else ScanArrival(words[1..], offset, arrival)
  }

  /** The DELAYED loop fails exactly when a word holding ':' is not a number
      once its colons are gone. */
  lemma {:induction false} ScanArrivalOk(words: seq<string>, offset: int, arrival: Option<int>)
    ensures ScanArrival(words, offset, arrival).1
        <==> forall i :: 0 <= i < |words| && ':' in words[i] ==> ParseInt(Replace(words[i], ":", "")).Some?
  {
    if words != [] {
      var next := if ':' in words[0] && ParseInt(Replace(words[0], ":", "")).Some?
                  then Some(ParseInt(Replace(words[0], ":", "")).value + offset) else arrival;
      ScanArrivalOk(words[1..], offset, next);
      assert forall i :: 1 <= i < |words| ==> words[i] == words[1..][i - 1];
    }
  }

  /** With no word holding ':', the arrival time stays as it was. */
  lemma {:induction false} ScanArrivalNoColon(words: seq<string>, offset: int, arrival: Option<int>)
    requires forall i :: 0 <= i < |words| ==> ':' !in words[i]
    ensures ScanArrival(words, offset, arrival) == (arrival, true)
  {
    if words != [] {
      assert ':' !in words[0];
      ScanArrivalNoColon(words[1..], offset, arrival);
    }
  }

  /** When the loop succeeds, the arrival time comes from the LAST word
      holding ':'. */
  lemma {:induction false} ScanArrivalLast(words: seq<string>, offset: int, arrival: Option<int>, i: nat)
    requires i < |words| && ':' in words[i]
    requires forall j :: i < j < |words| ==> ':' !in words[j]
    requires ScanArrival(words, offset, arrival).1
    ensures ParseInt(Replace(words[i], ":", "")).Some?
    ensures ScanArrival(words, offset, arrival).0 == Some(ParseInt(Replace(words[i], ":", "")).value + offset)
  {
    var next := if ':' in words[0] && ParseInt(Replace(words[0], ":", "")).Some?
                then Some(ParseInt(Replace(words[0], ":", "")).value + offset) else arrival;
    assert ScanArrival(words, offset, arrival) == ScanArrival(words[1..], offset, next);
    if i == 0 {
      ScanArrivalNoColon(words[1..], offset, next);
    } else {
      assert words[1..][i - 1] == words[i];
      ScanArrivalLast(words[1..], offset, next, i - 1);
    }
  }

  /** The DELIVERED WITH loop: once a word holding 'WITH' has been seen,
      every later word has its commas removed and is read as a companion id.
      The flag is false where int() raises. */
  function ScanCompanions(words: seq<string>, next: bool, acc: seq<int>): (seq<int>, bool)
  {
    if words == [] then (acc, true)
    else if next then
      match ParseInt(Replace(words[0], ",", ""))
      case None => (acc, false)
      case Some(v) => ScanCompanions(words[1..], true, acc + [v])
    else ScanCompanions(words[1..], HasSubstring(words[0], "WITH"), acc)
  }

  /** The words after the first word holding 'WITH' (none if there is none). */
  function AfterWith(words: seq<string>): (r: seq<string>)
    ensures |r| <= |words|
  {
    if words == [] then []
    else if HasSubstring(words[0], "WITH") then words[1..]
    else AfterWith(words[1..])
  }

  /** Reading every word as a companion fails exactly when some word is not
      a number once its commas are gone. */
  lemma {:induction false} ScanCompanionsOk(ws: seq<string>, acc: seq<int>)
    ensures ScanCompanions(ws, true, acc).1 <==> forall i :: 0 <= i < |ws| ==> ParseInt(Replace(ws[i], ",", "")).Some?
  {
    if ws != [] {
      match ParseInt(Replace(ws[0], ",", ""))
      case None =>
      case Some(v) =>
        ScanCompanionsOk(ws[1..], acc + [v]);
        assert forall i :: 1 <= i < |ws| ==> ws[i] == ws[1..][i - 1];
    }
  }

  /** The loop only ever appends to the companions already there. */
  lemma {:induction false} ScanCompanionsPrefix(ws: seq<string>, next: bool, acc: seq<int>)
    ensures |acc| <= |ScanCompanions(ws, next, acc).0|
    ensures ScanCompanions(ws, next, acc).0[..|acc|] == acc
  {
    if ws != [] {
      if next {
        match ParseInt(Replace(ws[0], ",", ""))
        case None =>
        case Some(v) =>
          ScanCompanionsPrefix(ws[1..], true, acc + [v]);
          var cs := ScanCompanions(ws[1..], true, acc + [v]).0;
          assert cs[..|acc|] == (cs[..|acc| + 1])[..|acc|];
      } else {
        ScanCompanionsPrefix(ws[1..], HasSubstring(ws[0], "WITH"), acc);
      }
    }
  }

  /** Reading every word as a companion appends them, in order, to what was
      there. */
  lemma {:induction false} ScanCompanionsAll(ws: seq<string>, acc: seq<int>)
    requires ScanCompanions(ws, true, acc).1
    ensures |ScanCompanions(ws, true, acc).0| == |acc| + |ws|
    ensures forall i :: 0 <= i < |ws| ==> Some(ScanCompanions(ws, true, acc).0[|acc| + i]) == ParseInt(Replace(ws[i], ",", ""))
  {
    if ws != [] {
      var v := ParseInt(Replace(ws[0], ",", "")).value;
      var cs := ScanCompanions(ws[1..], true, acc + [v]).0;
      assert cs == ScanCompanions(ws, true, acc).0;
      ScanCompanionsAll(ws[1..], acc + [v]);
      ScanCompanionsPrefix(ws[1..], true, acc + [v]);
      forall i | 0 <= i < |ws| ensures Some(cs[|acc| + i]) == ParseInt(Replace(ws[i], ",", "")) {
        if i == 0 {
          assert cs[|acc|] == (cs[..|acc| + 1])[|acc|];
        } else {
          assert ws[i] == ws[1..][i - 1];
          assert |acc| + i == |acc + [v]| + (i - 1);
        }
      }
    }
  }

  /** Starting before any 'WITH' word, the loop reads exactly the words after
      the first one holding 'WITH' (parcel.py:103-110). */
  lemma {:induction false} ScanCompanionsAfterWith(words: seq<string>, acc: seq<int>)
    ensures ScanCompanions(words, false, acc) == ScanCompanions(AfterWith(words), true, acc)
  {
    if words != [] && !HasSubstring(words[0], "WITH") {
      ScanCompanionsAfterWith(words[1..], acc);
    }
  }

  /** Which branch of the parser runs: the first keyword found, in this
      order. */
  datatype Keyword = KDelayed | KTruck | KWrongAddress | KDeliveredWith | KNone

  function KeywordOf(instr: string): Keyword {
    if HasSubstring(instr, "DELAYED") then KDelayed
    else if HasSubstring(instr, "TRUCK") then KTruck
    else if HasSubstring(instr, "WRONG ADDRESS") then KWrongAddress
    else if HasSubstring(instr, "DELIVERED WITH") then KDeliveredWith
    else KNone
  }

  function ApplyDelayed(instr: string, f: InstrFields): (InstrFields, bool) {
    var offset := if HasSubstring(instr, "PM") then 1200 else 0;
    var (arrival, ok) := ScanArrival(Words(instr), offset, f.arrivalTime);
    (f.(delayed := true, arrivalTime := arrival), ok)
  }

  function ApplyTruck(instr: string, f: InstrFields): (InstrFields, bool) {
    var words := Words(instr);
    var truck := if words == [] then None else ParseInt(words[|words| - 1]);
    if truck.Some? then (f.(requiredTruck := truck), true) else (f, false)
  }

  function ApplyDeliveredWith(instr: string, f: InstrFields): (InstrFields, bool) {
    var (cs, ok) := ScanCompanions(Words(instr), false, f.companions);
    (f.(companionParcels := true, linked := true, companions := cs), ok)
  }

  /** The whole parser, on the instruction text and the attributes before it
      runs. The flag is false where the source raises (int() on a word that
      is not a number, or `words[-1]` of no words). */
  function ParseInstructions(text: string, f: InstrFields): (InstrFields, bool)
  {
    var instr := Upper(text);
    match KeywordOf(instr)
    case KDelayed => ApplyDelayed(instr, f)
    case KTruck => ApplyTruck(instr, f)
    case KWrongAddress => (f.(wrongAddress := true), true)
    case KDeliveredWith => ApplyDeliveredWith(instr, f)
    case KNone => (f, true)
  }

  lemma UpperIdempotent(s: string)
    ensures Upper(Upper(s)) == Upper(s)
  {
  }

  /** Parsing is case-insensitive: the text is upper-cased first. */
  lemma InstructionsCaseInsensitive(text: string, f: InstrFields)
    ensures ParseInstructions(Upper(text), f) == ParseInstructions(text, f)
  {
    UpperIdempotent(text);
  }

  /** Only the first keyword found, in the order DELAYED, TRUCK, WRONG
      ADDRESS, DELIVERED WITH, has any effect, and each keyword touches only
      its own attributes (parcel.py:82-110). */
  lemma InstructionsFirstKeywordOnly(text: string, f: InstrFields)
    ensures var (g, _) := ParseInstructions(text, f);
      match KeywordOf(Upper(text))
      case KDelayed => g == f.(delayed := true, arrivalTime := g.arrivalTime)
      case KTruck => g == f.(requiredTruck := g.requiredTruck)
      case KWrongAddress => g == f.(wrongAddress := true)
      case KDeliveredWith => g == f.(companionParcels := true, linked := true, companions := g.companions)
      case KNone => g == f
  {
  }

  /** A text naming DELAYED is parsed as a delay even if it also names a
      truck or companions. */
  lemma KeywordOrder(instr: string)
    ensures HasSubstring(instr, "DELAYED") <==> KeywordOf(instr) == KDelayed
    ensures KeywordOf(instr) == KTruck <==> !HasSubstring(instr, "DELAYED") && HasSubstring(instr, "TRUCK")
    ensures KeywordOf(instr) == KNone <==>
      !HasSubstring(instr, "DELAYED") && !HasSubstring(instr, "TRUCK")
      && !HasSubstring(instr, "WRONG ADDRESS") && !HasSubstring(instr, "DELIVERED WITH")
  {
  }

  /** DELIVERED WITH appends, in order, every word after the first word
      holding 'WITH', commas removed and read as an integer
      (parcel.py:99-110). */
  lemma DeliveredWithCompanions(instr: string, f: InstrFields)
    ensures ApplyDeliveredWith(instr, f).0.linked && ApplyDeliveredWith(instr, f).0.companionParcels
    ensures ApplyDeliveredWith(instr, f).1
        <==> forall i :: 0 <= i < |AfterWith(Words(instr))| ==> ParseInt(Replace(AfterWith(Words(instr))[i], ",", "")).Some?
    ensures ApplyDeliveredWith(instr, f).1 ==>
        && |ApplyDeliveredWith(instr, f).0.companions| == |f.companions| + |AfterWith(Words(instr))|
        && ApplyDeliveredWith(instr, f).0.companions[..|f.companions|] == f.companions
        && forall i :: 0 <= i < |AfterWith(Words(instr))| ==>
             Some(ApplyDeliveredWith(instr, f).0.companions[|f.companions| + i]) == ParseInt(Replace(AfterWith(Words(instr))[i], ",", ""))
  {
    var ws := Words(instr);
    var rest := AfterWith(ws);
    ScanCompanionsAfterWith(ws, f.companions);
    ScanCompanionsOk(rest, f.companions);
    ScanCompanionsPrefix(rest, true, f.companions);
    if ScanCompanions(rest, true, f.companions).1 {
      ScanCompanionsAll(rest, f.companions);
    }
    assert ApplyDeliveredWith(instr, f) == (f.(companionParcels := true, linked := true,
      companions := ScanCompanions(rest, true, f.companions).0), ScanCompanions(rest, true, f.companions).1);
    if ApplyDeliveredWith(instr, f).1 {
      assert forall i :: 0 <= i < |rest| ==> ParseInt(Replace(rest[i], ",", "")).Some?;
    } else {
      assert !ScanCompanions(rest, true, f.companions).1;
      var i :| 0 <= i < |rest| && !ParseInt(Replace(rest[i], ",", "")).Some?;
      assert AfterWith(Words(instr))[i] == rest[i];
    }
  }

  /** DELAYED takes the arrival time from the last word holding ':', plus
      1200 when 'PM' occurs anywhere in the text (parcel.py:82-93). */
  lemma DelayedArrival(instr: string, f: InstrFields, i: nat)
    requires var ws := Words(instr); i < |ws| && ':' in ws[i] && forall j :: i < j < |ws| ==> ':' !in ws[j]
    ensures var (g, ok) := ApplyDelayed(instr, f); var ws := Words(instr);
      && g.delayed
      && (ok ==> && ParseInt(Replace(ws[i], ":", "")).Some?
                 && g.arrivalTime == Some(ParseInt(Replace(ws[i], ":", "")).value + if HasSubstring(instr, "PM") then 1200 else 0))
  {
    var offset := if HasSubstring(instr, "PM") then 1200 else 0;
    if ScanArrival(Words(instr), offset, f.arrivalTime).1 {
      ScanArrivalLast(Words(instr), offset, f.arrivalTime, i);
    }
  }

  // ---------------------------------------------------------------------

  class Parcel {
    const id: int
    const address: string
    const city: string
    const state: string
    const zip: string
    const mass: string
    const specialInstructions: string
    const deadline: Option<int>
    var status: string
    var priority: ExtInt
    var deliveryNode: Node?
    var delayed: bool
    var arrivalTime: Option<int>
    var requiredTruck: Option<int>
    var wrongAddress: bool
    var companionParcels: bool
    var companions: seq<int>
    var linked: bool

    /** The attributes the instruction parser works on. */
    function Instructions(): InstrFields
      reads this
    {
      InstrFields(delayed, arrivalTime, requiredTruck, wrongAddress, companionParcels, companions, linked)
    }

    constructor (id: int, address: string, city: string, state: string, zip: string,
                 deadlineText: string, mass: string, instr: string, status: string)
      requires ParseDeadline(deadlineText) != Malformed
      ensures this.id == id && this.address == address && this.city == city && this.state == state
      ensures this.zip == zip && this.mass == mass && specialInstructions == instr && this.status == status
      ensures deadline == DeadlineValue(ParseDeadline(deadlineText))
      ensures priority == NegInf && deliveryNode == null
      ensures Instructions() == NoInstructions
    {
      this.id := id;
      this.address := address;
      this.city := city;
      this.state := state;
      this.zip := zip;
      this.mass := mass;
      specialInstructions := instr;
      this.status := status;
      deadline := DeadlineValue(ParseDeadline(deadlineText));
      priority := NegInf;
      deliveryNode := null;
      delayed := false;
      arrivalTime := None;
      requiredTruck := None;
      wrongAddress := false;
      companionParcels := false;
      companions := [];
      linked := false;
    }

    method SetStatus(status: string)
      modifies this`status
      ensures this.status == status
    {
      this.status := status;
    }

    /** The delivery node is the graph's first node at this address and zip. */
    method SetNode(graph: Graph)
      requires graph.Valid()
      modifies this`deliveryNode
      ensures deliveryNode == FirstAtAddress(graph.Listed(), address, zip)
    {
      deliveryNode := graph.GetNodeByAddress(address, zip);
    }

    method SetPriority(num: ExtInt)
      modifies this`priority
      ensures priority == num
    {
      priority := num;
    }

    method ParseSpecialInstructions() returns (ok: bool)
      modifies this
      ensures (Instructions(), ok) == ParseInstructions(specialInstructions, old(Instructions()))
      ensures status == old(status) && priority == old(priority) && deliveryNode == old(deliveryNode)
    {
      var instr := Upper(specialInstructions);
      ok := true;
      if HasSubstring(instr, "DELAYED") {
        ok := ReadDelayed(instr);
      } else if HasSubstring(instr, "TRUCK") {
        ok := ReadTruck(instr);
      } else if HasSubstring(instr, "WRONG ADDRESS") {
        wrongAddress := true;
      } else if HasSubstring(instr, "DELIVERED WITH") {
        ok := ReadDeliveredWith(instr);
      }
    }

    /** The DELAYED branch (parcel.py:82-93). */
    method ReadDelayed(instr: string) returns (ok: bool)
      modifies this
      ensures (Instructions(), ok) == ApplyDelayed(instr, old(Instructions()))
      ensures status == old(status) && priority == old(priority) && deliveryNode == old(deliveryNode)
    {
      delayed := true;
      var offset := if HasSubstring(instr, "PM") then 1200 else 0;
      ok := ReadArrival(Words(instr), offset);
    }

    /** The TRUCK branch (parcel.py:94-96). */
    method ReadTruck(instr: string) returns (ok: bool)
      modifies this
      ensures (Instructions(), ok) == ApplyTruck(instr, old(Instructions()))
      ensures status == old(status) && priority == old(priority) && deliveryNode == old(deliveryNode)
    {
      var words := Words(instr);
      if words == [] {
        return false;
      }
      var truck := ParseInt(words[|words| - 1]);
      if truck.None? {
        return false;
      }
      requiredTruck := truck;
      ok := true;
    }

    /** The DELIVERED WITH branch (parcel.py:99-110). */
    method ReadDeliveredWith(instr: string) returns (ok: bool)
      modifies this
      ensures (Instructions(), ok) == ApplyDeliveredWith(instr, old(Instructions()))
      ensures status == old(status) && priority == old(priority) && deliveryNode == old(deliveryNode)
    {
      companionParcels := true;
      linked := true;
      ok := ReadCompanions(Words(instr));
    }

    /** The DELAYED loop over the words of the instructions. */
    method ReadArrival(words: seq<string>, offset: int) returns (ok: bool)
      modifies this
      ensures (arrivalTime, ok) == ScanArrival(words, offset, old(arrivalTime))
      ensures Instructions() == old(Instructions()).(arrivalTime := arrivalTime)
      ensures status == old(status) && priority == old(priority) && deliveryNode == old(deliveryNode)
    {
      ok := true;
      var i := 0;
      while i < |words|
        invariant 0 <= i <= |words|
        invariant ScanArrival(words[i..], offset, arrivalTime) == ScanArrival(words, offset, old(arrivalTime))
        invariant Instructions() == old(Instructions()).(arrivalTime := arrivalTime)
        invariant status == old(status) && priority == old(priority) && deliveryNode == old(deliveryNode)
      {
        assert words[i..][1..] == words[i + 1..];
        if ':' in words[i] {
          var value := ParseInt(Replace(words[i], ":", ""));
          if value.None? {
            ok := false;
            return;
          }
          arrivalTime := Some(value.value + offset);
        }
        i := i + 1;
      }
    }

    /** The DELIVERED WITH loop over the words of the instructions. */
    method ReadCompanions(words: seq<string>) returns (ok: bool)
      modifies this
      ensures (companions, ok) == ScanCompanions(words, false, old(companions))
      ensures Instructions() == old(Instructions()).(companions := companions)
      ensures status == old(status) && priority == old(priority) && deliveryNode == old(deliveryNode)
    {
      ok := true;
      var next := false;
      var i := 0;
      while i < |words|
        invariant 0 <= i <= |words|
        invariant ScanCompanions(words[i..], next, companions) == ScanCompanions(words, false, old(companions))
        invariant Instructions() == old(Instructions()).(companions := companions)
        invariant status == old(status) && priority == old(priority) && deliveryNode == old(deliveryNode)
      {
        assert words[i..][1..] == words[i + 1..];
        if next {
          var value := ParseInt(Replace(words[i], ",", ""));
          if value.None? {
            ok := false;
            return;
          }
          companions := companions + [value.value];
        }
        if HasSubstring(words[i], "WITH") {
          next := true;
        }
        i := i + 1;
      }
    }

    // Comparison operators (parcel.py:112-141): ordering by priority,
    // equality by id.

    predicate Lt(other: Parcel)
      reads this, other
    {
      priority.Lt(other.priority)
    }

    predicate Gt(other: Parcel)
      reads this, other
    {
      other.priority.Lt(priority)
    }

    predicate Le(other: Parcel)
      reads this, other
    {
      priority.Le(other.priority)
    }

    predicate Ge(other: Parcel)
      reads this, other
    {
      other.priority.Le(priority)
    }

    predicate Eq(other: Parcel) {
      id == other.id
    }

    predicate Ne(other: Parcel) {
      id != other.id
    }
  }

  /** The ordering operators look only at priority and order parcels
      totally; == and != look only at id, so two parcels of equal priority
      are ordered neither way whatever their ids. */
  lemma ParcelComparisons(a: Parcel, b: Parcel)
    ensures a.Le(b) <==> a.Lt(b) || a.priority == b.priority
    ensures a.Gt(b) <==> b.Lt(a)
    ensures a.Ge(b) <==> b.Le(a)
    ensures a.Lt(b) || a.Ge(b)
    ensures a.Eq(b) <==> !a.Ne(b)
    ensures a.priority == b.priority ==> !a.Lt(b) && !a.Gt(b)
  {
  }
}
