/** `SimCom` of `src/simcom.rs`: the SIM7600 modem lookup on top of `SysfsSearch`. It runs
    the search, asks for the TTY numbers of devices with the SIMCom vendor and SIM7600
    model, and reports the smallest number and how many there are. */
module SimCom {
  import opened Base
  import opened DirWalk
  import SysfsSearch

  /** SIMCom's USB vendor id, hexadecimal. */
  const SimcomVid: string := "1e0e"
  /** The SIM7600's USB model id, hexadecimal. */
  const Sim7600Mid: string := "9001"
  /** The model name. */
  const Sim7600: string := "SIM7600"

  // ---------------------------------------------------------------------------------
  // Numerals

  predicate IsHexDigit(c: char) {
    '0' <= c <= '9' || 'a' <= c <= 'f'
  }

  function HexDigitValue(c: char): nat
    requires IsHexDigit(c)
  {
    if '0' <= c <= '9' then (c - '0') as nat else (c - 'a') as nat + 10
  }

  /** The value of a lower-case hexadecimal numeral. */
  function HexValue(s: string): nat
    requires forall k :: 0 <= k < |s| ==> IsHexDigit(s[k])
  {
    if |s| == 0 then 0 else HexValue(s[..|s| - 1]) * 16 + HexDigitValue(s[|s| - 1])
  }

  /** The id constants are the numbers their comments give. */
  lemma IdsMatchTheirComments()
    ensures HexValue(SimcomVid) == 7694
    ensures HexValue(Sim7600Mid) == 36865
  {
    assert "1e0e"[..3] == "1e0" && "1e0"[..2] == "1e" && "1e"[..1] == "1" && "1"[..0] == "";
    assert HexValue("1e0") == 480;
    assert "9001"[..3] == "900" && "900"[..2] == "90" && "90"[..1] == "9" && "9"[..0] == "";
    assert HexValue("900") == 2304;
  }

  predicate IsDigit(c: char) {
    '0' <= c <= '9'
  }

  predicate AllDigits(s: string) {
    forall k :: 0 <= k < |s| ==> IsDigit(s[k])
  }

  /** The value of a decimal numeral. */
  function DecimalValue(s: string): nat
    requires AllDigits(s)
  {
    if |s| == 0 then 0 else DecimalValue(s[..|s| - 1]) * 10 + (s[|s| - 1] - '0') as nat
  }

  /** Rust's `str::parse::<u32>`: an optional leading `+`, then at least one decimal digit,
      and a value that fits in a `u32`. */
  function ParseU32(s: string): (r: Option<u32>)
    ensures r.Some? ==> |s| > 0
  {
    var digits := if |s| > 0 && s[0] == '+' then s[1..] else s;
    if |digits| == 0 || !AllDigits(digits) then None
    else if DecimalValue(digits) <= U32_MAX then Some(DecimalValue(digits) as u32)
    else None
  }

  /** The decimal numeral of `n`, without leading zeros. */
  function ToDecimal(n: nat): (s: string)
    ensures |s| > 0 && AllDigits(s)
  {
    if n < 10 then [('0' as int + n) as char]
    else ToDecimal(n / 10) + [('0' as int + n % 10) as char]
  }

  lemma {:induction false} DecimalValueOfToDecimal(n: nat)
    ensures DecimalValue(ToDecimal(n)) == n
    decreases n
  {
    if n >= 10 {
      var s := ToDecimal(n);
      assert s[..|s| - 1] == ToDecimal(n / 10);
      DecimalValueOfToDecimal(n / 10);
    }
  }

  /** Parsing the printed form of a `u32` gives it back. */
  lemma ParseU32RoundTrip(n: u32)
    ensures ParseU32(ToDecimal(n as nat)) == Some(n)
  {
    DecimalValueOfToDecimal(n as nat);
  }

  /** A value past `u32::MAX` is refused. */
  lemma ParseU32RefusesOverflow(n: nat)
    requires n > U32_MAX
    ensures ParseU32(ToDecimal(n)) == None
  {
    DecimalValueOfToDecimal(n);
  }

  /** A sign is accepted only as `+` and only before digits. */
  lemma ParseU32Signs()
    ensures ParseU32("+7") == Some(7)
    ensures ParseU32("-7") == None
    ensures ParseU32("+") == None
    ensures ParseU32("") == None
  {
    assert "+7"[1..] == "7" && "7"[..0] == "";
    assert "+"[1..] == "";
  }

  // ---------------------------------------------------------------------------------
  // The report

  /** The smallest element, as `Iterator::min` returns it. */
  function Min(ns: seq<u32>): (m: u32)
    requires |ns| > 0
    ensures m in ns
    ensures forall i :: 0 <= i < |ns| ==> m <= ns[i]
  {
    if |ns| == 1 then ns[0]
    else
      var rest := Min(ns[1..]);
      assert forall i :: 1 <= i < |ns| ==> ns[i] == ns[1..][i - 1];
      if ns[0] <= rest then ns[0] else rest
  }

  /** `TTY_START` and `TTY_TOTAL`. */
  datatype TtyReport = TtyReport(start: u32, total: nat)

  /** Every value parses as a `u32`; otherwise `unwrap` panics. */
  ghost predicate AllParse(values: seq<string>) {
    forall i :: 0 <= i < |values| ==> ParseU32(values[i]).Some?
  }

  /** The report over the matched TTY numbers: the smallest parsed value and the number of
      values, duplicates included. */
  function Report(values: seq<string>): (r: TtyReport)
    requires |values| > 0 && AllParse(values)
    ensures r.total == |values|
    ensures forall i :: 0 <= i < |values| ==> r.start <= ParseU32(values[i]).value
    ensures exists i :: 0 <= i < |values| && ParseU32(values[i]).value == r.start
  {
    var parsed := seq(|values|, i requires 0 <= i < |values| => ParseU32(values[i]).value);
    assert forall i :: 0 <= i < |values| ==> parsed[i] == ParseU32(values[i]).value;
    TtyReport(Min(parsed), |values|)
  }

  // ---------------------------------------------------------------------------------
  // find_simcom_dev

  /** The key names of the `usbdev` module, which is not part of this model. */
  datatype UsbKeys = UsbKeys(vendorId: string, modelId: string, ttyNum: string)

  /** A list of (key, expected value) pairs. */
  type Criteria = seq<(string, string)>

  /** The three-argument `SysfsSearch::get_property(key, criteria)`, which is not part of
      this model: any function of the searcher's state, the key and the criteria. It takes
      the searcher by `&mut`, so it gives back the searcher it leaves along with its answer. */
  type Matcher = (SysfsSearch.Searcher, string, Option<Criteria>) -> (SysfsSearch.Searcher, Option<seq<string>>)

  datatype SimCom = SimCom(sysfsobj: SysfsSearch.Searcher)

  /** `SimCom::new`. */
  function New(path: string, filter: Option<seq<string>>, searchLimit: Option<u32>): SimCom {
    SimCom(SysfsSearch.New(path, filter, searchLimit))
  }

  /** `SimCom::get_property`: the searcher's answer, and the state it leaves, passed through. */
  function GetProperty(sim: SimCom, key: string, criteria: Option<Criteria>, matcher: Matcher): (SimCom, Option<seq<string>>) {
    var (after, found) := matcher(sim.sysfsobj, key, criteria);
    (SimCom(after), found)
  }

  /** The criteria `find_simcom_dev` asks with. */
  function SimcomCriteria(keys: UsbKeys): Criteria {
    [(keys.vendorId, SimcomVid), (keys.modelId, Sim7600Mid)]
  }

  /** The lookup answer `find_simcom_dev` reports on, after its search. */
  function TtyLookup(sim: SimCom, root: Node, udev: string -> SysfsSearch.CommandResult, keys: UsbKeys, matcher: Matcher): Option<seq<string>> {
    GetProperty(SimCom(SysfsSearch.Search(sim.sysfsobj, root, udev).searcher), keys.ttyNum, Some(SimcomCriteria(keys)), matcher).1
  }

  /** The report is defined: an answer, when there is one, is non-empty and every value in
      it parses (`min().unwrap()` and `parse().unwrap()` do not panic). */
  ghost predicate ReportDefined(sim: SimCom, root: Node, udev: string -> SysfsSearch.CommandResult, keys: UsbKeys, matcher: Matcher) {
    var found := TtyLookup(sim, root, udev, keys, matcher);
    found.Some? ==> |found.value| > 0 && AllParse(found.value)
  }

  /** `find_simcom_dev`: search, ask for the TTY numbers of SIMCom SIM7600 devices, and
      report their minimum and count; the search's own return value is ignored. The state
      left is the one the lookup leaves, after the search. */
  function FindSimcomDev(sim: SimCom, root: Node, udev: string -> SysfsSearch.CommandResult, keys: UsbKeys, matcher: Matcher)
    : (r: (SimCom, Option<TtyReport>))
    requires ReportDefined(sim, root, udev, keys, matcher)
    ensures var lookup := matcher(SysfsSearch.Search(sim.sysfsobj, root, udev).searcher,
                                  keys.ttyNum, Some([(keys.vendorId, "1e0e"), (keys.modelId, "9001")]));
      var found := lookup.1;
      && r.0 == SimCom(lookup.0)
      && (r.1.None? <==> found.None?)
      && (r.1.Some? ==>
            && r.1.value.total == |found.value|
            && (forall i :: 0 <= i < |found.value| ==> r.1.value.start <= ParseU32(found.value[i]).value)
            && (exists i :: 0 <= i < |found.value| && ParseU32(found.value[i]).value == r.1.value.start))
  {
    var searched := SimCom(SysfsSearch.Search(sim.sysfsobj, root, udev).searcher);
    var (sim', found) := GetProperty(searched, keys.ttyNum, Some(SimcomCriteria(keys)), matcher);
    if found.Some? then (sim', Some(Report(found.value))) else (sim', None)
  }
}
