/**
  The configuration record of a tailing reader and the option constructors
  that set its fields. An option is a value naming the fields it assigns;
  applying a list of options is a left fold over a starting record.
 */
module Config {

  /** Durations are nanoseconds; the reader only ever compares them with 0. */
  type Duration = int

  datatype Options = Options(
    waitForFile: bool,
    waitForFileTimeout: Duration,
    closeOnDelete: bool,
    closeOnTruncate: bool,
    idleTimeout: Duration,
    treatTimeoutsAsEOF: bool)

  /** The zero value of the record, from which every fold starts. */
  const ZeroOptions := Options(false, 0, false, false, 0, false)

  /** One option constructor per setter; each value stands for the closure it returns. */
  datatype Option =
    | WithWaitForFile(wait: bool, timeout: Duration)
    | WithCloseOnDelete(close: bool)
    | WithCloseOnTruncate(close: bool)
    | WithIdleTimeout(timeout: Duration)
    | WithTimeoutsAsEOF(timeoutsAsEOF: bool)

  /** The options used when a reader is built with an empty option list. */
  const DefaultOptions: seq<Option> := [WithWaitForFile(true, 0), WithCloseOnDelete(false)]

  /** The fields of the record, used to speak about which fields an option touches. */
  datatype Field =
    | WaitForFileField
    | WaitForFileTimeoutField
    | CloseOnDeleteField
    | CloseOnTruncateField
    | IdleTimeoutField
    | TreatTimeoutsAsEOFField

  /** The two records hold the same value in field `f`. */
  predicate Agree(a: Options, b: Options, f: Field) {
    match f
    case WaitForFileField => a.waitForFile == b.waitForFile
    case WaitForFileTimeoutField => a.waitForFileTimeout == b.waitForFileTimeout
    case CloseOnDeleteField => a.closeOnDelete == b.closeOnDelete
    case CloseOnTruncateField => a.closeOnTruncate == b.closeOnTruncate
    case IdleTimeoutField => a.idleTimeout == b.idleTimeout
    case TreatTimeoutsAsEOFField => a.treatTimeoutsAsEOF == b.treatTimeoutsAsEOF
  }

  /** The fields an option is documented to write. */
  function Writes(o: Option): (fields: set<Field>) {
    match o
    case WithWaitForFile(_, _) => {WaitForFileField, WaitForFileTimeoutField}
    case WithCloseOnDelete(_) => {CloseOnDeleteField}
    case WithCloseOnTruncate(_) => {CloseOnTruncateField}
    case WithIdleTimeout(_) => {IdleTimeoutField}
    case WithTimeoutsAsEOF(_) => {TreatTimeoutsAsEOFField}
  }

  /** The record carries the values that option `o` was built with. */
  predicate Carries(o: Option, opts: Options) {
    match o
    case WithWaitForFile(wait, timeout) => opts.waitForFile == wait && opts.waitForFileTimeout == timeout
    case WithCloseOnDelete(close) => opts.closeOnDelete == close
    case WithCloseOnTruncate(close) => opts.closeOnTruncate == close
    case WithIdleTimeout(timeout) => opts.idleTimeout == timeout
    case WithTimeoutsAsEOF(b) => opts.treatTimeoutsAsEOF == b
  }

  /** Runs the closure that option `o` stands for on `opts`. */
  function Apply(o: Option, opts: Options): (r: Options)
    ensures Carries(o, r)
    ensures forall f :: f !in Writes(o) ==> Agree(r, opts, f)
  {
    match o
    case WithWaitForFile(wait, timeout) => opts.(waitForFile := wait, waitForFileTimeout := timeout)
    case WithCloseOnDelete(close) => opts.(closeOnDelete := close)
    case WithCloseOnTruncate(close) => opts.(closeOnTruncate := close)
    case WithIdleTimeout(timeout) => opts.(idleTimeout := timeout)
    case WithTimeoutsAsEOF(b) => opts.(treatTimeoutsAsEOF := b)
  }

  /** Applies the options to `start` from left to right. */
  function ApplyAll(options: seq<Option>, start: Options): (r: Options)
    ensures |options| > 0 ==> Carries(options[|options| - 1], r)
    decreases |options|
  {
    if options == [] then start else ApplyAll(options[1..], Apply(options[0], start))
  }

  /**
    The record a reader ends up with: the options given, or the defaults when
    none are. An empty list yields WaitForFile true, no wait timeout, no close
    on delete and every other field zero; otherwise the last option given is
    in force.
   */
  function Configured(options: seq<Option>): (r: Options)
    ensures |options| == 0 ==> r == Options(true, 0, false, false, 0, false)
    ensures |options| > 0 ==> Carries(options[|options| - 1], r)
  {
    ApplyAll(if |options| == 0 then DefaultOptions else options, ZeroOptions)
  }

  /** Applying an option a second time changes nothing. */
  lemma ApplyIdempotent(o: Option, opts: Options)
    ensures Apply(o, Apply(o, opts)) == Apply(o, opts)
  {
  }

  /** The value an option writes into one of its fields does not depend on the record it is applied to. */
  lemma ApplyWritesOwnValue(o: Option, a: Options, b: Options, f: Field)
    requires f in Writes(o)
    ensures Agree(Apply(o, a), Apply(o, b), f)
  {
  }

  /** Folding over a concatenation is folding over the first part, then over the second. */
  lemma {:induction false} ApplyAllAppend(xs: seq<Option>, ys: seq<Option>, start: Options)
    ensures ApplyAll(xs + ys, start) == ApplyAll(ys, ApplyAll(xs, start))
    decreases |xs|
  {
    if xs == [] {
      assert xs + ys == ys;
    } else {
      assert (xs + ys)[1..] == xs[1..] + ys;
      ApplyAllAppend(xs[1..], ys, Apply(xs[0], start));
    }
  }

  /** Repeating the last option of a list gives the same record as giving it once. */
  lemma ApplyAllRepeatLast(options: seq<Option>, o: Option, start: Options)
    ensures ApplyAll(options + [o, o], start) == ApplyAll(options + [o], start)
  {
    var mid := ApplyAll(options, start);
    ApplyAllAppend(options, [o, o], start);
    ApplyAllAppend(options, [o], start);
    assert [o, o][1..] == [o];
    ApplyIdempotent(o, mid);
  }

  /** A field that no option in the list writes keeps its starting value. */
  lemma {:induction false} ApplyAllKeepsUntouched(options: seq<Option>, start: Options, f: Field)
    requires forall j :: 0 <= j < |options| ==> f !in Writes(options[j])
    ensures Agree(ApplyAll(options, start), start, f)
    decreases |options|
  {
    if options != [] {
      var next := Apply(options[0], start);
      ApplyAllKeepsUntouched(options[1..], next, f);
    }
  }

  /**
    The last option in the list that writes a field decides its value:
    the result agrees on `f` with that option applied to any record.
   */
  lemma {:induction false} ApplyAllLastWriterWins(options: seq<Option>, start: Options, i: nat, f: Field, any: Options)
    requires i < |options| && f in Writes(options[i])
    requires forall j :: i < j < |options| ==> f !in Writes(options[j])
    ensures Agree(ApplyAll(options, start), Apply(options[i], any), f)
    decreases |options|
  {
    var next := Apply(options[0], start);
    if i == 0 {
      ApplyAllKeepsUntouched(options[1..], next, f);
      ApplyWritesOwnValue(options[0], start, any, f);
    } else {
      ApplyAllLastWriterWins(options[1..], next, i - 1, f, any);
    }
  }

  /**
    A non-empty list is folded over the zero record, not over the defaults:
    unless some option in it sets WaitForFile, the reader does not wait for the file.
   */
  lemma ConfiguredNonEmptyDoesNotWait(options: seq<Option>)
    requires |options| > 0
    requires forall j :: 0 <= j < |options| ==> !options[j].WithWaitForFile?
    ensures !Configured(options).waitForFile && Configured(options).waitForFileTimeout == 0
  {
    ApplyAllKeepsUntouched(options, ZeroOptions, WaitForFileField);
    ApplyAllKeepsUntouched(options, ZeroOptions, WaitForFileTimeoutField);
  }

  /** Every field that no given option writes holds its zero value. */
  lemma ConfiguredNonEmptyZeroElsewhere(options: seq<Option>, f: Field)
    requires |options| > 0
    requires forall j :: 0 <= j < |options| ==> f !in Writes(options[j])
    ensures Agree(Configured(options), ZeroOptions, f)
  {
    ApplyAllKeepsUntouched(options, ZeroOptions, f);
  }
}
