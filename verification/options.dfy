/** TFTP options (RFC 2347, 2348, 2349, 7440): raw strings, and their validation. */
module Options {
  import opened Bytes
  import Decimal

  const DEFAULT_BLOCK_SIZE: nat := 512
  const DEFAULT_WINDOW_SIZE: nat := 1
  const BLKSIZE_MIN: nat := 8
  const BLKSIZE_MAX: nat := 65464
  const WINDOWSIZE_MAX: nat := 65535
  const TIMEOUT_MAX: nat := 255

  datatype Opts = Opts(blksize: nat, windowsize: nat, timeout: Option<nat>, tsize: Option<nat>)

  datatype Entry = Entry(key: string, value: string)

  /** A JavaScript object with string values: entries in order of first insertion. */
  type RawOptions = seq<Entry>

  predicate KnownName(key: string) {
    key == "blksize" || key == "timeout" || key == "tsize" || key == "windowsize"
  }

  function Lookup(raw: RawOptions, key: string): Option<string> {
    if raw == [] then None
    else if raw[0].key == key then Some(raw[0].value)
    else Lookup(raw[1..], key)
  }

  /** raw[key] = value: in place when the key is there, at the end when it is not. */
  function Assign(raw: RawOptions, key: string, value: string): RawOptions {
    if raw == [] then [Entry(key, value)]
    else if raw[0].key == key then [Entry(key, value)] + raw[1..]
    else [raw[0]] + Assign(raw[1..], key, value)
  }

  datatype Validated = Valid(opts: Opts) | Invalid(message: string)

  /** An option that must be a number between `least` and `most`, if it is there. */
  function InRange(raw: RawOptions, key: string, least: int, most: Option<int>): bool {
    var s := Lookup(raw, key);
    s.None? ||
    var v := Decimal.ParseInt(s.value);
    v.Some? && least <= v.value && (most.None? || v.value <= most.value)
  }

  function Number(raw: RawOptions, key: string): Option<int> {
    var s := Lookup(raw, key);
    if s.None? then None else Decimal.ParseInt(s.value)
  }

  function Bad(raw: RawOptions, key: string, limits: string): Validated
    requires Lookup(raw, key).Some?
  {
    Invalid("Invalid " + key + ": " + Lookup(raw, key).value + " (must be " + limits + ")")
  }

  function ValidateOptions(raw: RawOptions): (v: Validated)
    ensures v.Valid? ==> BLKSIZE_MIN <= v.opts.blksize <= BLKSIZE_MAX && 1 <= v.opts.windowsize <= WINDOWSIZE_MAX
  {
    if !InRange(raw, "blksize", BLKSIZE_MIN, Some(BLKSIZE_MAX)) then Bad(raw, "blksize", "8-65464")
    else if !InRange(raw, "timeout", 1, Some(TIMEOUT_MAX)) then Bad(raw, "timeout", "1-255")
    else if !InRange(raw, "tsize", 0, None) then Bad(raw, "tsize", ">= 0")
    else if !InRange(raw, "windowsize", 1, Some(WINDOWSIZE_MAX)) then Bad(raw, "windowsize", "1-65535")
    else
      var b, w := Number(raw, "blksize"), Number(raw, "windowsize");
      var t, z := Number(raw, "timeout"), Number(raw, "tsize");
      Valid(Opts(
        if b.Some? then b.value else DEFAULT_BLOCK_SIZE,
        if w.Some? then w.value else DEFAULT_WINDOW_SIZE,
        if t.Some? then Some(t.value) else None,
        if z.Some? then Some(z.value) else None))
  }

  function ValidatedToRaw(opts: Opts): RawOptions {
    Maybe(opts.blksize != DEFAULT_BLOCK_SIZE, "blksize", opts.blksize)
    + Maybe(opts.timeout.Some?, "timeout", if opts.timeout.Some? then opts.timeout.value else 0)
    + Maybe(opts.tsize.Some?, "tsize", if opts.tsize.Some? then opts.tsize.value else 0)
    + Maybe(opts.windowsize != DEFAULT_WINDOW_SIZE, "windowsize", opts.windowsize)
  }

  /** Options every value of which the validation accepts. */
  predicate Acceptable(opts: Opts) {
    && (opts.blksize == DEFAULT_BLOCK_SIZE || BLKSIZE_MIN <= opts.blksize <= BLKSIZE_MAX)
    && 1 <= opts.windowsize <= WINDOWSIZE_MAX
    && (opts.timeout.Some? ==> 1 <= opts.timeout.value <= TIMEOUT_MAX)
  }

  /** The two ends of a transfer go by the same block and window size: by an OACK that the
      client accepts, or because what the client asked for is what the server uses. */
  predicate Agreed(opts: Opts, requested: Opts, withOptions: bool) {
    && 0 < opts.blksize && 0 < opts.windowsize
    && (if withOptions then Acceptable(opts)
        else opts.blksize == requested.blksize && opts.windowsize == requested.windowsize)
  }

  lemma NamesDiffer()
    ensures "blksize" != "timeout" && "blksize" != "tsize" && "blksize" != "windowsize"
    ensures "timeout" != "tsize" && "timeout" != "windowsize" && "tsize" != "windowsize"
  {
    assert "blksize"[0] == 'b' && "timeout"[0] == 't';
    assert |"blksize"| == |"timeout"| == 7 && |"tsize"| == 5 && |"windowsize"| == 10;
  }

  lemma LookupConcat(a: RawOptions, b: RawOptions, key: string)
    ensures Lookup(a + b, key) == if Lookup(a, key).Some? then Lookup(a, key) else Lookup(b, key)
  {
    if a == [] {
      assert a + b == b;
    } else {
      assert (a + b)[1..] == a[1..] + b;
      LookupConcat(a[1..], b, key);
    }
  }

  /** The entry of an option that is only sent when `present`. */
  function Maybe(present: bool, key: string, value: nat): RawOptions {
    if present then [Entry(key, Decimal.Print(value))] else []
  }

  lemma LookupMaybe(present: bool, key: string, value: nat, other: string)
    ensures Lookup(Maybe(present, key, value), other) ==
            if present && other == key then Some(Decimal.Print(value)) else None
  {
    if present {
      assert [Entry(key, Decimal.Print(value))][1..] == [];
    }
  }

  /** What the raw form holds under each name: nothing for a default or an absent value. */
  lemma RawHolds(opts: Opts, key: string)
    requires KnownName(key)
    ensures Lookup(ValidatedToRaw(opts), key) ==
            if key == "blksize" then (if opts.blksize != DEFAULT_BLOCK_SIZE then Some(Decimal.Print(opts.blksize)) else None)
            else if key == "timeout" then (if opts.timeout.Some? then Some(Decimal.Print(opts.timeout.value)) else None)
            else if key == "tsize" then (if opts.tsize.Some? then Some(Decimal.Print(opts.tsize.value)) else None)
            else (if opts.windowsize != DEFAULT_WINDOW_SIZE then Some(Decimal.Print(opts.windowsize)) else None)
  {
    NamesDiffer();
    var timeout := if opts.timeout.Some? then opts.timeout.value else 0;
    var tsize := if opts.tsize.Some? then opts.tsize.value else 0;
    var b := Maybe(opts.blksize != DEFAULT_BLOCK_SIZE, "blksize", opts.blksize);
    var t := Maybe(opts.timeout.Some?, "timeout", timeout);
    var z := Maybe(opts.tsize.Some?, "tsize", tsize);
    var w := Maybe(opts.windowsize != DEFAULT_WINDOW_SIZE, "windowsize", opts.windowsize);
    assert ValidatedToRaw(opts) == b + t + z + w;
    LookupConcat(b, t, key);
    LookupConcat(b + t, z, key);
    LookupConcat(b + t + z, w, key);
    LookupMaybe(opts.blksize != DEFAULT_BLOCK_SIZE, "blksize", opts.blksize, key);
    LookupMaybe(opts.timeout.Some?, "timeout", timeout, key);
    LookupMaybe(opts.tsize.Some?, "tsize", tsize, key);
    LookupMaybe(opts.windowsize != DEFAULT_WINDOW_SIZE, "windowsize", opts.windowsize, key);
  }

  /** A printed option, or a missing one, as the validation sees it. */
  lemma FieldOf(raw: RawOptions, key: string, v: Option<nat>, least: int, most: Option<int>)
    requires Lookup(raw, key) == if v.Some? then Some(Decimal.Print(v.value)) else None
    ensures Number(raw, key) == if v.Some? then Some(v.value) else None
    ensures InRange(raw, key, least, most) <==>
            v.None? || (least <= v.value && (most.None? || v.value <= most.value))
  {
    if v.Some? {
      Decimal.ParsePrint(v.value);
    }
  }

  function Given(value: nat, default: nat): Option<nat> {
    if value == default then None else Some(value)
  }

  function Or(v: Option<nat>, default: nat): nat {
    if v.Some? then v.value else default
  }

  ghost predicate Holds(raw: RawOptions, key: string, v: Option<nat>) {
    Lookup(raw, key) == if v.Some? then Some(Decimal.Print(v.value)) else None
  }

  /** Validation of options that are printed numbers, whatever their order. */
  lemma ValidateFields(raw: RawOptions, b: Option<nat>, t: Option<nat>, z: Option<nat>, w: Option<nat>)
    requires Holds(raw, "blksize", b) && Holds(raw, "timeout", t) && Holds(raw, "tsize", z) && Holds(raw, "windowsize", w)
    ensures ValidateOptions(raw).Valid? <==>
            && (b.Some? ==> BLKSIZE_MIN <= b.value <= BLKSIZE_MAX)
            && (t.Some? ==> 1 <= t.value <= TIMEOUT_MAX)
            && (w.Some? ==> 1 <= w.value <= WINDOWSIZE_MAX)
    ensures ValidateOptions(raw).Valid? ==>
            ValidateOptions(raw).opts == Opts(Or(b, DEFAULT_BLOCK_SIZE), Or(w, DEFAULT_WINDOW_SIZE), t, z)
  {
    FieldOf(raw, "blksize", b, BLKSIZE_MIN, Some(BLKSIZE_MAX));
    FieldOf(raw, "timeout", t, 1, Some(TIMEOUT_MAX));
    FieldOf(raw, "tsize", z, 0, None);
    FieldOf(raw, "windowsize", w, 1, Some(WINDOWSIZE_MAX));
  }

  /** What the raw form of options holds under each name. */
  lemma RawFields(opts: Opts)
    ensures var raw := ValidatedToRaw(opts);
            && Holds(raw, "blksize", Given(opts.blksize, DEFAULT_BLOCK_SIZE))
            && Holds(raw, "timeout", opts.timeout) && Holds(raw, "tsize", opts.tsize)
            && Holds(raw, "windowsize", Given(opts.windowsize, DEFAULT_WINDOW_SIZE))
  {
    NamesDiffer();
    RawHolds(opts, "blksize");
    RawHolds(opts, "timeout");
    RawHolds(opts, "tsize");
    RawHolds(opts, "windowsize");
  }

  /** Validation undoes the conversion, exactly for the values it accepts. */
  lemma ValidateRaw(opts: Opts)
    ensures Acceptable(opts) <==> ValidateOptions(ValidatedToRaw(opts)).Valid?
    ensures Acceptable(opts) ==> ValidateOptions(ValidatedToRaw(opts)) == Valid(opts)
  {
    RawFields(opts);
    ValidateFields(ValidatedToRaw(opts), Given(opts.blksize, DEFAULT_BLOCK_SIZE), opts.timeout, opts.tsize,
                   Given(opts.windowsize, DEFAULT_WINDOW_SIZE));
  }
}
