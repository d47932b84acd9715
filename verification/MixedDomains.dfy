/** PAN, IFSC and vehicle registration marks (src/surrogate/domains/pan.py, ifsc.py,
    vehicle_registration.py). */
module MixedDomains {
  import opened Prelude
  import opened MixedRadix
  import opened Alphabet
  import opened Layouts
  import Ff1

  const LETTERS := "ABCDEFGHIJKLMNOPQRSTUVWXYZ"

  /** Five free letters, the frozen holder category at index 3, four free digits. */
  const PAN: Layout :=
    Layout(10, [0, 1, 2, 4, 9, 5, 6, 7, 8], [26, 26, 26, 26, 26, 10, 10, 10, 10],
           map[3 := LETTERS], [80, 65, 78])

  /** Four free letters, the frozen '0' at index 4, six free alphanumerics. */
  const IFSC: Layout :=
    Layout(11, [0, 1, 2, 3, 5, 6, 7, 8, 9, 10], [26, 26, 26, 26, 36, 36, 36, 36, 36, 36],
           map[4 := "0"], [73, 70, 83, 67])

  function PanPosition(k: nat): nat {
    if k < 3 then k else if k == 3 then 4 else if k == 4 then 9 else k
  }

  function IfscPosition(k: nat): nat {
    if k < 4 then k else k + 1
  }

  lemma PanCovers(l: Layout)
    requires l.length == 10 && l.frozen.Keys == {3} && |l.positions| == |l.radixes| == 9
    requires forall k | 0 <= k < 9 :: l.positions[k] == PanPosition(k) && IsRadix(l.radixes[k])
    ensures l.WellFormed()
  {
    forall i | 0 <= i < 10 && i != 3 ensures i in l.positions {
      assert l.positions[if i < 3 then i else if i == 4 then 3 else if i == 9 then 4 else i] == i;
    }
  }

  lemma IfscCovers(l: Layout)
    requires l.length == 11 && l.frozen.Keys == {4} && |l.positions| == |l.radixes| == 10
    requires forall k | 0 <= k < 10 :: l.positions[k] == IfscPosition(k) && IsRadix(l.radixes[k])
    ensures l.WellFormed()
  {
    forall i | 0 <= i < 11 && i != 4 ensures i in l.positions {
      assert l.positions[if i < 4 then i else i - 1] == i;
    }
  }

  lemma LayoutsWellFormed()
    ensures PAN.WellFormed() && IFSC.WellFormed()
  {
    hide Layout.WellFormed;
    PanCovers(PAN);
    IfscCovers(IFSC);
  }

  const FREE_LETTER_POSITIONS: seq<nat> := [0, 1, 2, 4, 9]
  const FREE_DIGIT_POSITIONS: seq<nat> := [5, 6, 7, 8]

  /** One zip loop of a _rebuild: symbols written at their positions, the rest untouched. */
  method Place(chars: array<char>, positions: seq<nat>, radix: nat, symbols: seq<nat>)
    requires |positions| == |symbols| && IsRadix(radix) && forall k | 0 <= k < |symbols| :: symbols[k] < radix
    requires forall k | 0 <= k < |positions| :: positions[k] < chars.Length
    requires forall j, k | 0 <= j < k < |positions| :: positions[j] != positions[k]
    modifies chars
    ensures forall k | 0 <= k < |positions| :: chars[positions[k]] == ValueChar(radix, symbols[k])
    ensures forall i | 0 <= i < chars.Length && i !in positions :: chars[i] == old(chars[i])
  {
    for k := 0 to |positions|
      invariant forall j | 0 <= j < k :: chars[positions[j]] == ValueChar(radix, symbols[j])
      invariant forall i | 0 <= i < chars.Length && i !in positions :: chars[i] == old(chars[i])
    {
      chars[positions[k]] := ValueChar(radix, symbols[k]);
    }
  }

  lemma PositionsApart()
    ensures forall i | i in FREE_LETTER_POSITIONS :: i < 10 && i != 3 && i !in FREE_DIGIT_POSITIONS
    ensures 3 !in FREE_DIGIT_POSITIONS && |FREE_LETTER_POSITIONS| == 5 && |FREE_DIGIT_POSITIONS| == 4
    ensures forall i | i in BANK_CODE_POSITIONS :: i < 11 && i != 4 && i !in BRANCH_CODE_POSITIONS
    ensures 4 !in BRANCH_CODE_POSITIONS && |BANK_CODE_POSITIONS| == 4 && |BRANCH_CODE_POSITIONS| == 6
  {
  }

  /** _rebuild of pan.py: letters, the frozen category, digits, each into its place. */
  method PanRebuild(symbols: seq<nat>, category: char) returns (value: string)
    requires InRange(symbols, PAN.radixes)
    ensures PAN.WellFormed()
    ensures forall template | |template| == 10 && template[3] == category :: value == PAN.Rebuild(symbols, template)
  {
    hide Layout.Rebuild, Layout.WellFormed, ValueChar;
    LayoutsWellFormed();
    PositionsApart();
    var letters, digits := symbols[..5], symbols[5..];
    assert forall k | 0 <= k < 9 :: symbols[k] < PAN.radixes[k];
    var chars := new char[10](i => ' ');
    Place(chars, FREE_LETTER_POSITIONS, 26, letters);
    chars[3] := category;
    Place(chars, FREE_DIGIT_POSITIONS, 10, digits);
    value := chars[..];
    forall j | 0 <= j < 5 ensures value[FREE_LETTER_POSITIONS[j]] == ValueChar(26, symbols[j]) {
      assert FREE_LETTER_POSITIONS[j] in FREE_LETTER_POSITIONS;
    }
    forall template | |template| == 10 && template[3] == category ensures value == PAN.Rebuild(symbols, template) {
      PanFilled(symbols, template, value);
    }
  }

  lemma PanFilled(symbols: seq<nat>, template: string, value: string)
    requires InRange(symbols, PAN.radixes) && PAN.WellFormed() && |template| == |value| == 10 && value[3] == template[3]
    requires forall k | 0 <= k < 9 :: symbols[k] < PAN.radixes[k]
    requires forall j | 0 <= j < 5 :: value[FREE_LETTER_POSITIONS[j]] == ValueChar(26, symbols[j])
    requires forall j | 0 <= j < 4 :: value[FREE_DIGIT_POSITIONS[j]] == ValueChar(10, symbols[5 + j])
    ensures value == PAN.Rebuild(symbols, template)
  {
    hide Layout.Rebuild, Layout.WellFormed;
    forall k | 0 <= k < 9 ensures value[PAN.positions[k]] == ValueChar(PAN.radixes[k], symbols[k]) {
      assert k < 5 ==> FREE_LETTER_POSITIONS[k] == PAN.positions[k];
      assert k >= 5 ==> FREE_DIGIT_POSITIONS[k - 5] == PAN.positions[k];
    }
    PAN.IsTheRebuild(symbols, template, value);
  }

  const BANK_CODE_POSITIONS: seq<nat> := [0, 1, 2, 3]
  const BRANCH_CODE_POSITIONS: seq<nat> := [5, 6, 7, 8, 9, 10]

  /** _rebuild of ifsc.py: bank letters, the literal '0', branch symbols. */
  method IfscRebuild(symbols: seq<nat>) returns (value: string)
    requires InRange(symbols, IFSC.radixes)
    ensures IFSC.WellFormed()
    ensures forall template | |template| == 11 && template[4] == '0' :: value == IFSC.Rebuild(symbols, template)
  {
    hide Layout.Rebuild, Layout.WellFormed, ValueChar;
    LayoutsWellFormed();
    PositionsApart();
    var bank, branch := symbols[..4], symbols[4..];
    assert forall k | 0 <= k < 10 :: symbols[k] < IFSC.radixes[k];
    var chars := new char[11](i => ' ');
    Place(chars, BANK_CODE_POSITIONS, 26, bank);
    chars[4] := '0';
    Place(chars, BRANCH_CODE_POSITIONS, 36, branch);
    value := chars[..];
    forall j | 0 <= j < 4 ensures value[BANK_CODE_POSITIONS[j]] == ValueChar(26, symbols[j]) {
      assert BANK_CODE_POSITIONS[j] in BANK_CODE_POSITIONS;
    }
    forall template | |template| == 11 && template[4] == '0' ensures value == IFSC.Rebuild(symbols, template) {
      IfscFilled(symbols, template, value);
    }
  }

  lemma IfscFilled(symbols: seq<nat>, template: string, value: string)
    requires InRange(symbols, IFSC.radixes) && IFSC.WellFormed()
    requires |template| == |value| == 11 && value[4] == template[4]
    requires forall k | 0 <= k < 10 :: symbols[k] < IFSC.radixes[k]
    requires forall j | 0 <= j < 4 :: value[BANK_CODE_POSITIONS[j]] == ValueChar(26, symbols[j])
    requires forall j | 0 <= j < 6 :: value[BRANCH_CODE_POSITIONS[j]] == ValueChar(36, symbols[4 + j])
    ensures value == IFSC.Rebuild(symbols, template)
  {
    hide Layout.Rebuild, Layout.WellFormed;
    forall k | 0 <= k < 10 ensures value[IFSC.positions[k]] == ValueChar(IFSC.radixes[k], symbols[k]) {
      assert k < 4 ==> BANK_CODE_POSITIONS[k] == IFSC.positions[k];
      assert k >= 4 ==> BRANCH_CODE_POSITIONS[k - 4] == IFSC.positions[k];
    }
    IFSC.IsTheRebuild(symbols, template, value);
  }

  // ------------------------------------------------- vehicle registration marks

  const VEHICLE_TWEAK: Ff1.Bytes := [86, 69, 72, 73, 67, 76, 69, 95, 82, 69, 71]

  lemma StateCovers(l: Layout)
    requires l.length == |l.positions| == |l.radixes| && l.frozen == map[]
    requires forall k | 0 <= k < l.length :: l.positions[k] == k && IsRadix(l.radixes[k])
    ensures l.WellFormed()
  {
    forall i | 0 <= i < l.length ensures i in l.positions {
      assert l.positions[i] == i;
    }
  }

  lemma BharatCovers(l: Layout)
    requires l.length == |l.positions| + 2 && |l.positions| == |l.radixes| >= 2 && l.frozen.Keys == {2, 3}
    requires forall k | 0 <= k < |l.positions| ::
      l.positions[k] == (if k < 2 then k else k + 2) && IsRadix(l.radixes[k])
    ensures l.WellFormed()
  {
    forall i | 0 <= i < l.length && i != 2 && i != 3 ensures i in l.positions {
      assert l.positions[if i < 2 then i else i - 2] == i;
    }
  }

  /** State code: two letters, district digits, series letters, four digits, all free. */
  function StateLayout(district: nat, series: nat): (l: Layout)
    ensures l.WellFormed()
  {
    var n := 6 + district + series;
    var l := Layout(n, seq(n, i => i),
           seq(n, i => if i < 2 || 2 + district <= i < 2 + district + series then 26 else 10),
           map[], VEHICLE_TWEAK);
    assert forall k | 0 <= k < n :: l.positions[k] == k && IsRadix(l.radixes[k]);
    StateCovers(l);
    l
  }

  /** BH series: two digits, the literal BH, four digits, suffix letters. */
  function BharatLayout(suffix: nat): (l: Layout)
    ensures l.WellFormed()
  {
    var n := 6 + suffix;
    var l := Layout(n + 2, seq(n, i => if i < 2 then i else i + 2), seq(n, i => if i < 6 then 10 else 26),
           map[2 := "B", 3 := "H"], VEHICLE_TWEAK);
    assert forall k | 0 <= k < n :: l.positions[k] == (if k < 2 then k else k + 2) && IsRadix(l.radixes[k]);
    BharatCovers(l);
    l
  }

  /** Symbols of one segment written out. */
  function Spell(radix: nat, symbols: seq<nat>): (s: string)
    requires IsRadix(radix) && forall k | 0 <= k < |symbols| :: symbols[k] < radix
    ensures |s| == |symbols| && forall k | 0 <= k < |s| :: s[k] == ValueChar(radix, symbols[k])
  {
    seq(|symbols|, k requires 0 <= k < |symbols| => ValueChar(radix, symbols[k]))
  }

  /** The rebuild closure of a state-code mark: four segments, the index advancing. */
  method StateRebuild(district: nat, series: nat, symbols: seq<nat>) returns (value: string)
    requires InRange(symbols, StateLayout(district, series).radixes)
    ensures forall template | |template| == 6 + district + series ::
      value == StateLayout(district, series).Rebuild(symbols, template)
  {
    hide Layout.Rebuild, Layout.WellFormed;
    ghost var l := StateLayout(district, series);
    assert forall k | 0 <= k < |symbols| :: symbols[k] < l.radixes[k];
    var i := 0;
    var outState := Spell(26, symbols[i..i + 2]);
    i := i + 2;
    var outDistrict := Spell(10, symbols[i..i + district]);
    i := i + district;
    var outSeries := Spell(26, symbols[i..i + series]);
    i := i + series;
    var outNumber := Spell(10, symbols[i..i + 4]);
    value := outState + outDistrict + outSeries + outNumber;
    forall k | 0 <= k < |symbols| ensures value[k] == ValueChar(l.radixes[k], symbols[k]) {
    }
    forall template | |template| == 6 + district + series ensures value == l.Rebuild(symbols, template) {
      l.IsTheRebuild(symbols, template, value);
    }
  }

  /** The rebuild closure of a BH mark: year, the literal, number, suffix. */
  method BharatRebuild(suffix: nat, symbols: seq<nat>) returns (value: string)
    requires InRange(symbols, BharatLayout(suffix).radixes)
    ensures forall template | |template| == 8 + suffix && template[2] == 'B' && template[3] == 'H' ::
      value == BharatLayout(suffix).Rebuild(symbols, template)
  {
    hide Layout.Rebuild, Layout.WellFormed;
    ghost var l := BharatLayout(suffix);
    assert forall k | 0 <= k < |symbols| :: symbols[k] < l.radixes[k];
    var i := 0;
    var outYear := Spell(10, symbols[i..i + 2]);
    i := i + 2;
    var outNumber := Spell(10, symbols[i..i + 4]);
    i := i + 4;
    var outSuffix := Spell(26, symbols[i..i + suffix]);
    value := outYear + "BH" + outNumber + outSuffix;
    forall k | 0 <= k < |symbols| ensures value[l.positions[k]] == ValueChar(l.radixes[k], symbols[k]) {
    }
    forall template | |template| == 8 + suffix && template[2] == 'B' && template[3] == 'H'
      ensures value == l.Rebuild(symbols, template)
    {
      l.IsTheRebuild(symbols, template, value);
    }
  }

  /** The shapes the two patterns accept, in the order the greedy matcher tries them. */
  datatype Mark = State(district: nat, series: nat) | Bharat(suffix: nat) {
    predicate Legal() {
      if State? then 1 <= district <= 2 && 1 <= series <= 3 else 1 <= suffix <= 2
    }

    function Of(): (l: Layout)
      ensures l.WellFormed()
    {
      if State? then StateLayout(district, series) else BharatLayout(suffix)
    }
  }

  const MARKS: seq<Mark> :=
    [State(2, 3), State(2, 2), State(2, 1), State(1, 3), State(1, 2), State(1, 1), Bharat(2), Bharat(1)]

  function FirstMark(marks: seq<Mark>, core: string): Option<Mark> {
    if marks == [] then None
    else if marks[0].Of().Fits(core) then Some(marks[0])
    else FirstMark(marks[1..], core)
  }

  /** '$' also matches just before a final newline. */
  function Core(value: string): string {
    if value != "" && value[|value| - 1] == '\n' then value[..|value| - 1] else value
  }

  /** _parse: the shape of the mark, or nothing when neither pattern matches. */
  function Parse(value: string): Option<Mark> {
    FirstMark(MARKS, Core(value))
  }

  lemma FitsState(district: nat, series: nat, v: string)
    requires StateLayout(district, series).Fits(v)
    ensures |v| == 6 + district + series
    ensures forall i | 0 <= i < |v| ::
      InAlphabet(if i < 2 || 2 + district <= i < 2 + district + series then 26 else 10, v[i])
  {
    var l := StateLayout(district, series);
    forall i | 0 <= i < |v|
      ensures InAlphabet(if i < 2 || 2 + district <= i < 2 + district + series then 26 else 10, v[i])
    {
      assert l.positions[i] == i && InAlphabet(l.radixes[i], v[l.positions[i]]);
    }
  }

  lemma FitsBharat(suffix: nat, v: string)
    requires BharatLayout(suffix).Fits(v)
    ensures |v| == 8 + suffix && InAlphabet(10, v[0]) && InAlphabet(26, v[7 + suffix]) == (suffix > 0)
  {
    var l := BharatLayout(suffix);
    assert l.positions[0] == 0 && InAlphabet(l.radixes[0], v[l.positions[0]]);
    var k := 5 + suffix;
    assert l.positions[k] == 7 + suffix && InAlphabet(l.radixes[k], v[l.positions[k]]);
  }

  /** No string has two of the shapes. */
  lemma MarkUnique(m1: Mark, m2: Mark, v: string)
    requires m1.Legal() && m2.Legal() && m1.Of().Fits(v) && m2.Of().Fits(v)
    ensures m1 == m2
  {
    hide StateLayout, BharatLayout, Layout.Fits;
    if m1.State? {
      FitsState(m1.district, m1.series, v);
      assert InAlphabet(26, v[0]);
    } else {
      FitsBharat(m1.suffix, v);
    }
    if m2.State? {
      FitsState(m2.district, m2.series, v);
      assert InAlphabet(26, v[0]);
    } else {
      FitsBharat(m2.suffix, v);
    }
    if m1.State? && m2.State? {
      assert InAlphabet(if m1.district == 2 then 10 else 26, v[3]);
      assert InAlphabet(if m2.district == 2 then 10 else 26, v[3]);
    }
  }

  lemma {:induction false} FirstMarkFits(marks: seq<Mark>, v: string)
    requires forall i | 0 <= i < |marks| :: marks[i].Legal()
    ensures var r := FirstMark(marks, v);
      r.Some? ==> r.value.Legal() && r.value.Of().Fits(v) && r.value in marks
    ensures forall m | m in marks && m.Of().Fits(v) :: FirstMark(marks, v) == Some(m)
  {
    hide Layout.Fits, Mark.Of;
    if marks != [] {
      FirstMarkFits(marks[1..], v);
      if marks[0].Of().Fits(v) {
        forall m | m in marks && m.Of().Fits(v) ensures m == marks[0] {
          MarkUnique(m, marks[0], v);
        }
      }
    }
  }

  lemma ParseFits(value: string)
    ensures Parse(value).Some? ==>
      Parse(value).value.Legal() && Parse(value).value.Of().Fits(Core(value)) && Parse(value).value in MARKS
  {
    hide FirstMark, Layout.Fits, Mark.Of;
    FirstMarkFits(MARKS, Core(value));
  }

  function VehicleEncrypt(ciph: Ff1.Cipher, value: string): Result<string> {
    ParseFits(value);
    match Parse(value)
    case None => Err(SurrogateDomainError)
    case Some(m) => m.Of().Encrypt(ciph, Core(value))
  }

  function VehicleDecrypt(ciph: Ff1.Cipher, surrogate: string): Result<string> {
    ParseFits(surrogate);
    match Parse(surrogate)
    case None => Err(SurrogateDomainError)
    case Some(m) => m.Of().Decrypt(ciph, Core(surrogate))
  }

  /** A string that fits a layout does not end in a newline. */
  lemma NoTrailingNewline(m: Mark, v: string)
    requires m.Legal() && m.Of().Fits(v)
    ensures Core(v) == v
  {
    if m.State? {
      FitsState(m.district, m.series, v);
      assert InAlphabet(10, v[|v| - 1]);
    } else {
      FitsBharat(m.suffix, v);
    }
  }

  /** For every accepted mark on which the walk converges, the surrogate parses to the
      same scheme and segment lengths; decryption returns the mark itself exactly when it
      had no trailing newline, which the pattern tolerates and rebuild drops. */
  lemma VehicleRoundTrip(ciph: Ff1.Cipher, value: string)
    ensures VehicleEncrypt(ciph, value).Ok? ==> Parse(value).Some?
    ensures var s := VehicleEncrypt(ciph, value);
      s.Ok? ==> Parse(s.value) == Parse(value) && 8 <= |s.value| == |Core(value)| <= 11
                && VehicleDecrypt(ciph, s.value) == Ok(Core(value))
                && (VehicleDecrypt(ciph, s.value) == Ok(value) <==> (value != "" && value[|value| - 1] != '\n'))
  {
    hide Layout.Encrypt, Layout.Decrypt, Layout.Fits, Mark.Of, FirstMark;
    ParseFits(value);
    var s := VehicleEncrypt(ciph, value);
    if s.Ok? {
      var m, core := Parse(value).value, Core(value);
      m.Of().RoundTrip(ciph, core);
      NoTrailingNewline(m, s.value);
      FirstMarkFits(MARKS, s.value);
      MarkLength(m, core);
      MarkLength(m, s.value);
    }
  }

  lemma MarkLength(m: Mark, v: string)
    requires m.Legal() && m.Of().Fits(v)
    ensures 8 <= |v| <= 11 && |v| == m.Of().length
  {
  }
}
