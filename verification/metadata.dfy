/**
  The header of a radial file and the metadata dictionary read from it
  (`get_metadata_from_file` in xradial/utils.py, without the file I/O).

  A header is the leading run of lines that start with `%`. Each such line
  loses its first character and its surrounding whitespace; the resulting
  entries that still start with `%` (the `%%` comment lines) are skipped, and
  every other entry is split on `:` into a key and a value.
 */
module Metadata {
  import opened Results
  import opened Text

  /**
    A metadata value: text, a Python `int` (a value computed by the code or
    put in a hand-built dictionary), a NumPy `int64` (an integer produced by
    numeric coercion of header text) or a float. NumPy's `float64` is a
    subclass of Python's `float`, so one constructor serves both floats; the
    two integers differ because `int64` is not a subclass of `int`.
   */
  datatype Value = Str(s: string) | Int(i: int) | NpInt(i: int) | Num(x: real)

  /** The dictionary built from the header. Keys are case-sensitive and unique. */
  type Metadata = map<string, Value>

  /** Python truthiness of an optional value: `None`, `''`, `0` and `0.0` are falsy. */
  predicate Truthy(v: Option<Value>) {
    match v
    case None => false
    case Some(Str(s)) => s != []
    case Some(Int(i)) => i != 0
    case Some(NpInt(i)) => i != 0
    case Some(Num(x)) => x != 0.0
  }

  /** An integer of either kind: usable as a slice bound. */
  predicate IsInt(v: Value) {
    v.Int? || v.NpInt?
  }

  /** A value that arithmetic accepts. */
  predicate IsNumber(v: Option<Value>) {
    v.Some? && (IsInt(v.value) || v.value.Num?)
  }

  /** `isinstance(v, (int, float))`: true of a float of either kind and of a
      Python `int`, false of a NumPy `int64`. */
  predicate IsPyNumber(v: Option<Value>) {
    v.Some? && (v.value.Int? || v.value.Num?)
  }

  /** `dict.get(key, None)`. */
  function Get(md: Metadata, key: string): (r: Option<Value>)
    ensures r.Some? <==> key in md
    ensures r.Some? ==> r.value == md[key]
  {
    if key in md then Some(md[key]) else None
  }

  /**
    The number parsers and printer of the host language, which are outside the
    model: `int(s)`, `float(s)` (both `None` where Python raises ValueError) and
    `str(x)` for a float.
   */
  datatype Numerals = Numerals(
    parseInt: string -> Option<int>,
    parseFloat: string -> Option<real>,
    showFloat: real -> string)

  /** `pd.to_numeric(s, errors='ignore')`: an integer if the text reads as
      one, else a float if it reads as one, else the text itself, unchanged. */
  function ToNumeric(s: string, nums: Numerals): (v: Value)
    ensures v.NpInt? <==> nums.parseInt(s).Some?
    ensures v.Num? <==> nums.parseInt(s).None? && nums.parseFloat(s).Some?
    ensures v.Str? ==> v.s == s
  {
    match nums.parseInt(s)
    case Some(i) => NpInt(i)
    case None =>
      match nums.parseFloat(s)
      case Some(x) => Num(x)
      case None => Str(s)
  }

  /* ------------------------------------------------------------ header scan */

  /** The comment entries of a file: `l[1:].strip()` for each line of the
      leading run of lines that start with `%` (`itertools.takewhile`). */
  function HeaderComments(lines: seq<string>): (cs: seq<string>)
    ensures |cs| <= |lines|
    ensures forall k :: 0 <= k < |cs| ==> StartsWith(lines[k], '%') && cs[k] == Strip(lines[k][1..])
    ensures |cs| < |lines| ==> !StartsWith(lines[|cs|], '%')
  {
    if lines == [] || !StartsWith(lines[0], '%') then []
    else
      var rest := HeaderComments(lines[1..]);
      assert forall k :: 1 <= k < |lines| ==> lines[k] == lines[1..][k - 1];
      [Strip(lines[0][1..])] + rest
  }

  /** An entry that is parsed at all: one that does not itself start with `%`. */
  predicate Kept(c: string) {
    !StartsWith(c, '%')
  }

  /** `c.split(':')[0].strip()`. */
  function EntryKey(c: string): string {
    Strip(Split(c, ':')[0])
  }

  /** `c.split(':')[1].strip()`: the text between the first and the second
      `:`, or the empty text when there is no `:` (that case is an error). */
  function EntryValue(c: string): string {
    var parts := Split(c, ':');
    if |parts| >= 2 then Strip(parts[1]) else ""
  }

  /** Position of the first occurrence of `c` (`list.index`). */
  function FirstIndex(cs: seq<string>, c: string): (i: nat)
    requires c in cs
    ensures i < |cs| && cs[i] == c && c !in cs[..i]
  {
    if cs[0] == c then 0
    else
      var i := 1 + FirstIndex(cs[1..], c);
      assert cs[..i] == [cs[0]] + cs[1..][..i - 1];
      i
  }

  /** The two parsing modes. In `Numeric` mode an entry is stored only when the
      first occurrence of its text is at or before position `limit`. */
  datatype Mode = Raw | Numeric(nums: Numerals, limit: int)

  /** Entry `k` is looked at by the parser in this mode. */
  predicate Admitted(cs: seq<string>, k: nat, mode: Mode)
    requires k < |cs|
  {
    Kept(cs[k]) && (mode.Raw? || FirstIndex(cs, cs[k]) <= mode.limit)
  }

  /** The raw mode builds a `dict` from 2-tuples, so it needs exactly one `:`;
      the numeric mode reads `parts[1]`, so it needs at least one. */
  predicate WellFormed(c: string, mode: Mode) {
    if mode.Raw? then Count(c, ':') == 1 else Count(c, ':') >= 1
  }

  function Convert(c: string, mode: Mode): Value {
    if mode.Raw? then Str(EntryValue(c)) else ToNumeric(EntryValue(c), mode.nums)
  }

  /** What the parser makes of one entry. */
  datatype Entry = Entry(admitted: bool, wellFormed: bool, key: string, value: Value)

  function Classify(cs: seq<string>, k: nat, mode: Mode): Entry
    requires k < |cs|
  {
    Entry(Admitted(cs, k, mode), WellFormed(cs[k], mode), EntryKey(cs[k]), Convert(cs[k], mode))
  }

  function Entries(cs: seq<string>, mode: Mode): (es: seq<Entry>)
    ensures |es| == |cs|
    ensures forall k :: 0 <= k < |cs| ==> es[k] == Classify(cs, k, mode)
  {
    seq(|cs|, k requires 0 <= k < |cs| => Classify(cs, k, mode))
  }

  /** No admitted entry after position `k` (and before `n`) has the same key. */
  ghost predicate LastWriter(es: seq<Entry>, k: nat, n: nat)
    requires k < n <= |es|
  {
    forall l :: k < l < n && es[l].admitted ==> es[l].key != es[k].key
  }

  /** Every admitted entry among the first `n` is well formed. */
  ghost predicate AllWellFormed(es: seq<Entry>, n: nat)
    requires n <= |es|
  {
    forall k :: 0 <= k < n && es[k].admitted ==> es[k].wellFormed
  }

  /** The keys of the admitted entries among the first `n`. */
  ghost function AdmittedKeys(es: seq<Entry>, n: nat): set<string>
    requires n <= |es|
  {
    set k | 0 <= k < n && es[k].admitted :: es[k].key
  }

  /** `md` holds, under the key of every last admitted writer among the first
      `n` entries, that entry's value. */
  ghost predicate HoldsLastValues(es: seq<Entry>, n: nat, md: Metadata)
    requires n <= |es|
  {
    forall k :: 0 <= k < n && es[k].admitted && LastWriter(es, k, n) ==>
      es[k].key in md && md[es[k].key] == es[k].value
  }

  /** The dictionary built from the first `n` entries, later entries
      overwriting earlier ones. It fails exactly when some admitted entry is
      malformed; otherwise its keys are the keys of the admitted entries and
      each holds the value of the last admitted entry with that key. */
  function Build(es: seq<Entry>, n: nat, failure: Error): (r: Result<Metadata>)
    requires n <= |es|
    ensures r.Ok? <==> AllWellFormed(es, n)
    ensures r.Err? ==> r.error == failure
    ensures r.Ok? ==> r.value.Keys == AdmittedKeys(es, n)
    ensures r.Ok? ==> HoldsLastValues(es, n, r.value)
  {
    if n == 0 then
      assert AdmittedKeys(es, 0) == {};
      Ok(map[])
    else
      var prev := Build(es, n - 1, failure);
      BuildKeysStep(es, n);
      if prev.Err? then prev
      else if !es[n - 1].admitted then
        LastValuesSkip(es, n, prev.value);
        Ok(prev.value)
      else if !es[n - 1].wellFormed then Err(failure)
      else
        LastValuesStore(es, n, prev.value);
        Ok(prev.value[es[n - 1].key := es[n - 1].value])
  }

  lemma LastValuesSkip(es: seq<Entry>, n: nat, md: Metadata)
    requires 0 < n <= |es| && !es[n - 1].admitted
    requires HoldsLastValues(es, n - 1, md)
    ensures HoldsLastValues(es, n, md)
  {
    forall k | 0 <= k < n && es[k].admitted && LastWriter(es, k, n)
      ensures es[k].key in md && md[es[k].key] == es[k].value
    {
      assert LastWriter(es, k, n - 1);
    }
  }

  lemma LastValuesStore(es: seq<Entry>, n: nat, md: Metadata)
    requires 0 < n <= |es| && es[n - 1].admitted
    requires HoldsLastValues(es, n - 1, md)
    ensures HoldsLastValues(es, n, md[es[n - 1].key := es[n - 1].value])
  {
    var md' := md[es[n - 1].key := es[n - 1].value];
    forall k | 0 <= k < n && es[k].admitted && LastWriter(es, k, n)
      ensures es[k].key in md' && md'[es[k].key] == es[k].value
    {
      if k < n - 1 {
        assert LastWriter(es, k, n - 1);
        assert es[n - 1].key != es[k].key;
      }
    }
  }

  lemma BuildKeysStep(es: seq<Entry>, n: nat)
    requires 0 < n <= |es|
    ensures AllWellFormed(es, n) <==> AllWellFormed(es, n - 1) && (es[n - 1].admitted ==> es[n - 1].wellFormed)
    ensures AdmittedKeys(es, n) == AdmittedKeys(es, n - 1) + (if es[n - 1].admitted then {es[n - 1].key} else {})
  {
    var a := set k | 0 <= k < n && es[k].admitted :: es[k].key;
    var p := set k | 0 <= k < n - 1 && es[k].admitted :: es[k].key;
    var b := p + (if es[n - 1].admitted then {es[n - 1].key} else {});
    forall key | key in a ensures key in b {
      var k :| 0 <= k < n && es[k].admitted && es[k].key == key;
      if k < n - 1 {
        assert key in p;
      }
    }
    forall key | key in b ensures key in a {
      if key in p {
        var k :| 0 <= k < n - 1 && es[k].admitted && es[k].key == key;
        assert key in a;
      } else {
        assert es[n - 1].key in a;
      }
    }
  }

  /** No kept entry after position `k` has the same key as entry `k`. */
  ghost predicate LastKept(cs: seq<string>, k: nat)
    requires k < |cs|
  {
    forall l :: k < l < |cs| && Kept(cs[l]) ==> EntryKey(cs[l]) != EntryKey(cs[k])
  }

  /** `get_metadata_from_file(path)`: every kept entry needs exactly one `:`
      (otherwise `dict` refuses a tuple that is not a pair), and each key
      holds the text of the last kept entry with that key. */
  function ParseRaw(cs: seq<string>): (r: Result<Metadata>)
    ensures r.Ok? <==> forall k :: 0 <= k < |cs| && Kept(cs[k]) ==> Count(cs[k], ':') == 1
    ensures r.Err? ==> r.error == BadValue
    ensures r.Ok? ==> r.value.Keys == set k | 0 <= k < |cs| && Kept(cs[k]) :: EntryKey(cs[k])
    ensures r.Ok? ==> forall k :: 0 <= k < |cs| && Kept(cs[k]) && LastKept(cs, k) ==>
      EntryKey(cs[k]) in r.value && r.value[EntryKey(cs[k])] == Str(EntryValue(cs[k]))
  {
    var es := Entries(cs, Raw);
    var r := Build(es, |cs|, BadValue);
    RawBridge(cs, r);
    r
  }

  lemma RawBridge(cs: seq<string>, r: Result<Metadata>)
    requires r == Build(Entries(cs, Raw), |cs|, BadValue)
    ensures r.Ok? <==> forall k :: 0 <= k < |cs| && Kept(cs[k]) ==> Count(cs[k], ':') == 1
    ensures r.Ok? ==> r.value.Keys == set k | 0 <= k < |cs| && Kept(cs[k]) :: EntryKey(cs[k])
    ensures r.Ok? ==> forall k :: 0 <= k < |cs| && Kept(cs[k]) && LastKept(cs, k) ==>
      EntryKey(cs[k]) in r.value && r.value[EntryKey(cs[k])] == Str(EntryValue(cs[k]))
  {
    RawOk(cs);
    RawKeys(cs);
    if r.Ok? {
      RawValues(cs, r.value);
    }
  }

  lemma RawOk(cs: seq<string>)
    ensures AllWellFormed(Entries(cs, Raw), |cs|) <==> forall k :: 0 <= k < |cs| && Kept(cs[k]) ==> Count(cs[k], ':') == 1
  {
    var es := Entries(cs, Raw);
    forall k | 0 <= k < |cs| ensures es[k].admitted == Kept(cs[k]) && es[k].wellFormed == (Count(cs[k], ':') == 1) {
      assert es[k] == Classify(cs, k, Raw);
    }
  }

  lemma RawKeys(cs: seq<string>)
    ensures AdmittedKeys(Entries(cs, Raw), |cs|) == set k | 0 <= k < |cs| && Kept(cs[k]) :: EntryKey(cs[k])
  {
    var es := Entries(cs, Raw);
    var keys := set k | 0 <= k < |cs| && Kept(cs[k]) :: EntryKey(cs[k]);
    forall key | key in AdmittedKeys(es, |cs|) ensures key in keys {
      var k :| 0 <= k < |cs| && es[k].admitted && es[k].key == key;
      assert es[k] == Classify(cs, k, Raw);
    }
    forall key | key in keys ensures key in AdmittedKeys(es, |cs|) {
      var k :| 0 <= k < |cs| && Kept(cs[k]) && EntryKey(cs[k]) == key;
      assert es[k] == Classify(cs, k, Raw);
    }
  }

  lemma RawValues(cs: seq<string>, md: Metadata)
    requires HoldsLastValues(Entries(cs, Raw), |cs|, md)
    ensures forall k :: 0 <= k < |cs| && Kept(cs[k]) && LastKept(cs, k) ==>
      EntryKey(cs[k]) in md && md[EntryKey(cs[k])] == Str(EntryValue(cs[k]))
  {
    var es := Entries(cs, Raw);
    forall k | 0 <= k < |cs| && Kept(cs[k]) && LastKept(cs, k)
      ensures EntryKey(cs[k]) in md && md[EntryKey(cs[k])] == Str(EntryValue(cs[k]))
    {
      assert es[k] == Classify(cs, k, Raw);
      forall l | k < l < |cs| && es[l].admitted ensures es[l].key != es[k].key {
        assert es[l] == Classify(cs, l, Raw);
      }
      assert LastWriter(es, k, |cs|);
    }
  }

  /** The limit applied in numeric mode: the first `TableStart:` entry, or no limit. */
  function NumericLimit(cs: seq<string>): int {
    if "TableStart:" in cs then FirstIndex(cs, "TableStart:") else |cs|
  }

  /** Entry `k` is stored in numeric mode. */
  predicate NumericAdmitted(cs: seq<string>, k: nat)
    requires k < |cs|
  {
    Kept(cs[k]) && FirstIndex(cs, cs[k]) <= NumericLimit(cs)
  }

  /** No entry stored in numeric mode after position `k` has the same key. */
  ghost predicate LastStored(cs: seq<string>, k: nat)
    requires k < |cs|
  {
    forall l :: k < l < |cs| && NumericAdmitted(cs, l) ==> EntryKey(cs[l]) != EntryKey(cs[k])
  }

  /** `get_metadata_from_file(path, numeric=True)`. Without a `TableStart:`
      entry every kept entry is stored; with one, every kept entry up to it
      is, and a later entry only when the very same text occurs up to it
      (`comments.index(c)` finds the first occurrence). A stored entry needs
      a `:` (`parts[1]`), and values that do not read as numbers stay text. */
  function ParseNumeric(cs: seq<string>, nums: Numerals): (r: Result<Metadata>)
    ensures "TableStart:" !in cs ==> forall k :: 0 <= k < |cs| ==> (NumericAdmitted(cs, k) <==> Kept(cs[k]))
    ensures "TableStart:" in cs ==> forall k :: 0 <= k < |cs| ==>
      (NumericAdmitted(cs, k) <==> Kept(cs[k]) && cs[k] in cs[..FirstIndex(cs, "TableStart:") + 1])
    ensures r.Ok? <==> forall k :: 0 <= k < |cs| && NumericAdmitted(cs, k) ==> ':' in cs[k]
    ensures r.Err? ==> r.error == NoSuchIndex
    ensures r.Ok? ==> r.value.Keys == set k | 0 <= k < |cs| && NumericAdmitted(cs, k) :: EntryKey(cs[k])
    ensures r.Ok? ==> forall k :: 0 <= k < |cs| && NumericAdmitted(cs, k) && LastStored(cs, k) ==>
      EntryKey(cs[k]) in r.value && r.value[EntryKey(cs[k])] == ToNumeric(EntryValue(cs[k]), nums)
  {
    var r := Build(Entries(cs, Numeric(nums, NumericLimit(cs))), |cs|, NoSuchIndex);
    NumericAdmission(cs);
    NumericBridge(cs, nums, r);
    NumericBridgeKeys(cs, nums, r);
    NumericBridgeValues(cs, nums, r);
    r
  }

  lemma NumericBridge(cs: seq<string>, nums: Numerals, r: Result<Metadata>)
    requires r == Build(Entries(cs, Numeric(nums, NumericLimit(cs))), |cs|, NoSuchIndex)
    ensures r.Ok? <==> forall k :: 0 <= k < |cs| && NumericAdmitted(cs, k) ==> ':' in cs[k]
  {
    NumericOk(cs, nums);
  }

  lemma NumericBridgeKeys(cs: seq<string>, nums: Numerals, r: Result<Metadata>)
    requires r == Build(Entries(cs, Numeric(nums, NumericLimit(cs))), |cs|, NoSuchIndex)
    ensures r.Ok? ==> r.value.Keys == set k | 0 <= k < |cs| && NumericAdmitted(cs, k) :: EntryKey(cs[k])
  {
    NumericKeys(cs, nums);
  }

  lemma NumericBridgeValues(cs: seq<string>, nums: Numerals, r: Result<Metadata>)
    requires r == Build(Entries(cs, Numeric(nums, NumericLimit(cs))), |cs|, NoSuchIndex)
    ensures r.Ok? ==> forall k :: 0 <= k < |cs| && NumericAdmitted(cs, k) && LastStored(cs, k) ==>
      EntryKey(cs[k]) in r.value && r.value[EntryKey(cs[k])] == ToNumeric(EntryValue(cs[k]), nums)
  {
    if r.Ok? {
      NumericValues(cs, nums, r.value);
    }
  }

  lemma NumericOk(cs: seq<string>, nums: Numerals)
    ensures AllWellFormed(Entries(cs, Numeric(nums, NumericLimit(cs))), |cs|) <==>
      forall k :: 0 <= k < |cs| && NumericAdmitted(cs, k) ==> ':' in cs[k]
  {
    var mode := Numeric(nums, NumericLimit(cs));
    var es := Entries(cs, mode);
    forall k | 0 <= k < |cs| ensures es[k].admitted == NumericAdmitted(cs, k) && (es[k].wellFormed <==> ':' in cs[k]) {
      assert es[k] == Classify(cs, k, mode);
      if ':' in cs[k] { CountPositive(cs[k], ':'); } else { CountAbsent(cs[k], ':'); }
    }
  }

  lemma NumericKeys(cs: seq<string>, nums: Numerals)
    ensures AdmittedKeys(Entries(cs, Numeric(nums, NumericLimit(cs))), |cs|) ==
      set k | 0 <= k < |cs| && NumericAdmitted(cs, k) :: EntryKey(cs[k])
  {
    var mode := Numeric(nums, NumericLimit(cs));
    var es := Entries(cs, mode);
    var keys := set k | 0 <= k < |cs| && NumericAdmitted(cs, k) :: EntryKey(cs[k]);
    forall key | key in AdmittedKeys(es, |cs|) ensures key in keys {
      var k :| 0 <= k < |cs| && es[k].admitted && es[k].key == key;
      assert es[k] == Classify(cs, k, mode);
    }
    forall key | key in keys ensures key in AdmittedKeys(es, |cs|) {
      var k :| 0 <= k < |cs| && NumericAdmitted(cs, k) && EntryKey(cs[k]) == key;
      assert es[k] == Classify(cs, k, mode);
    }
  }

  lemma NumericValues(cs: seq<string>, nums: Numerals, md: Metadata)
    requires HoldsLastValues(Entries(cs, Numeric(nums, NumericLimit(cs))), |cs|, md)
    ensures forall k :: 0 <= k < |cs| && NumericAdmitted(cs, k) && LastStored(cs, k) ==>
      EntryKey(cs[k]) in md && md[EntryKey(cs[k])] == ToNumeric(EntryValue(cs[k]), nums)
  {
    var mode := Numeric(nums, NumericLimit(cs));
    var es := Entries(cs, mode);
    forall k | 0 <= k < |cs| && NumericAdmitted(cs, k) && LastStored(cs, k)
      ensures EntryKey(cs[k]) in md && md[EntryKey(cs[k])] == ToNumeric(EntryValue(cs[k]), nums)
    {
      assert es[k] == Classify(cs, k, mode);
      forall l | k < l < |cs| && es[l].admitted ensures es[l].key != es[k].key {
        assert es[l] == Classify(cs, l, mode);
      }
      assert LastWriter(es, k, |cs|);
    }
  }

  lemma NumericAdmission(cs: seq<string>)
    ensures "TableStart:" !in cs ==> forall k :: 0 <= k < |cs| ==> (NumericAdmitted(cs, k) <==> Kept(cs[k]))
    ensures "TableStart:" in cs ==> forall k :: 0 <= k < |cs| ==>
      (NumericAdmitted(cs, k) <==> Kept(cs[k]) && cs[k] in cs[..FirstIndex(cs, "TableStart:") + 1])
  {
    if "TableStart:" in cs {
      var t := FirstIndex(cs, "TableStart:");
      forall k | 0 <= k < |cs| ensures FirstIndex(cs, cs[k]) <= t <==> cs[k] in cs[..t + 1] {
        FirstIndexWithin(cs, cs[k], t);
      }
    }
  }

  lemma FirstIndexWithin(cs: seq<string>, c: string, t: nat)
    requires c in cs && t < |cs|
    ensures FirstIndex(cs, c) <= t <==> c in cs[..t + 1]
  {
    var f := FirstIndex(cs, c);
    if f <= t {
      assert cs[..t + 1][f] == c;
    } else {
      assert cs[..t + 1] == cs[..f][..t + 1];
    }
  }

  /**
    An entry after `TableStart:` is still stored when the same text occurs
    before it, because its position is looked up with `list.index`: in
    `ea`, `eb`, `TableStart:`, `ea`, where `ea` and `eb` share a key, the
    repeated `ea` overrides the `eb` written in between.
   */
  lemma NumericRepeatReapplied(cs: seq<string>, ea: string, eb: string, nums: Numerals)
    requires Kept(ea) && Kept(eb) && ':' in ea && ':' in eb
    requires ea != eb && EntryKey(ea) == EntryKey(eb)
    requires ea != "TableStart:" && eb != "TableStart:"
    requires cs == [ea, eb, "TableStart:", ea]
    ensures ParseNumeric(cs, nums).Ok? && EntryKey(ea) in ParseNumeric(cs, nums).value
    ensures ParseNumeric(cs, nums).value[EntryKey(ea)] == ToNumeric(EntryValue(ea), nums)
  {
    RepeatAdmitted(cs, ea, eb);
    NumericStores(cs, nums, 3, EntryKey(ea), EntryValue(ea));
  }

  /** In `ea`, `eb`, `TableStart:`, `ea` every entry has a `:` and the
      repeated `ea` is stored. */
  lemma RepeatAdmitted(cs: seq<string>, ea: string, eb: string)
    requires Kept(ea) && ':' in ea && ':' in eb
    requires ea != eb && ea != "TableStart:" && eb != "TableStart:"
    requires cs == [ea, eb, "TableStart:", ea]
    ensures NumericAdmitted(cs, 3)
    ensures forall l :: 0 <= l < |cs| ==> ':' in cs[l]
  {
    assert cs[..2] == [ea, eb];
    FirstIndexAt(cs, "TableStart:", 2);
    FirstIndexAt(cs, ea, 0);
    assert "TableStart:"[10] == ':';
  }

  /** The last entry, when stored, gives its key its value. */
  lemma NumericStores(cs: seq<string>, nums: Numerals, k: nat, key: string, v: string)
    requires k == |cs| - 1 && NumericAdmitted(cs, k)
    requires forall l :: 0 <= l < |cs| ==> ':' in cs[l]
    requires key == EntryKey(cs[k]) && v == EntryValue(cs[k])
    ensures ParseNumeric(cs, nums).Ok? && key in ParseNumeric(cs, nums).value
    ensures ParseNumeric(cs, nums).value[key] == ToNumeric(v, nums)
  {
    assert LastStored(cs, k);
  }

  /** The same for entries written `key: value`: in `k: a`, `k: b`,
      `TableStart:`, `k: a` the key `k` ends up holding `a`. */
  lemma NumericRepeatWritten(cs: seq<string>, key: string, a: string, b: string, nums: Numerals)
    requires Field(key) && Field(a) && Field(b) && a != b && key[0] != '%'
    requires cs == [key + ": " + a, key + ": " + b, "TableStart:", key + ": " + a]
    ensures ParseNumeric(cs, nums).Ok? && key in ParseNumeric(cs, nums).value
    ensures ParseNumeric(cs, nums).value[key] == ToNumeric(a, nums)
  {
    var ea, eb := key + ": " + a, key + ": " + b;
    EntryOf(key, a);
    EntryOf(key, b);
    assert ea != eb by {
      assert ea[|key| + 2..] == a && eb[|key| + 2..] == b;
    }
    assert ea[|key|] == ':' && eb[|key|] == ':';
    NotTableStart(ea, |key|);
    NotTableStart(eb, |key|);
    NumericRepeatReapplied(cs, ea, eb, nums);
  }

  /** An entry with a `:` at `i`, followed by at least two characters, is not
      `TableStart:`, whose only `:` is its last character. */
  lemma NotTableStart(c: string, i: nat)
    requires i + 2 < |c| && c[i] == ':'
    ensures c != "TableStart:"
  {
  }

  /** The first occurrence of `c` is at `i` when it is there and not before. */
  lemma FirstIndexAt(cs: seq<string>, c: string, i: nat)
    requires i < |cs| && cs[i] == c && c !in cs[..i]
    ensures FirstIndex(cs, c) == i
  {
  }

  /** Text usable as a key or a value: not empty, no `:`, no whitespace at
      either end. */
  predicate Field(t: string) {
    t != [] && ':' !in t && !IsSpace(t[0]) && !IsSpace(t[|t| - 1])
  }

  /** The entry `key: value` reads as that key and value. */
  lemma EntryOf(key: string, value: string)
    requires Field(key) && Field(value)
    ensures EntryKey(key + ": " + value) == key
    ensures EntryValue(key + ": " + value) == value
  {
    var c := key + ": " + value;
    assert c == Join([key, " " + value], ':');
    SplitJoin([key, " " + value], ':');
    StripSurrounded("", key, "");
    assert "" + key + "" == key;
    StripSurrounded(" ", value, "");
    assert " " + value + "" == " " + value;
  }
}
