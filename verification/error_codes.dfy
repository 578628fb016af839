/** The firmware's layered error-code namespace (ERROR_t) and the two
    status-check macros every handler uses.

    Application codes sit below ERROR_BASE_ADC1; every subsystem then owns
    the range [base, base + size), where its base is the previous base plus
    the previous subsystem's range size (its *_ERROR_BASE_LAST). The sizes
    live in driver headers that are not part of this model, so they are a
    parameter `sizes`, listed in declaration order. */
module ErrorCodes {

  const SUCCESS: int := 0
  const ERROR_REGISTER_ADDRESS: int := 1
  const ERROR_REGISTER_READ_ONLY: int := 2
  const ERROR_RS485_ADDRESS: int := 3
  const ERROR_BUSY_SPY_RUNNING: int := 4
  const ERROR_TX_DISABLED: int := 5
  const ERROR_BASE_ADC1: int := 0x0100

  /** The subsystems that own a range, in declaration order. */
  datatype Subsystem =
    | Adc1 | Flash | Iwdg | Lptim1 | Lpuart1 | Nvm | Rcc | Rtc | Tim21 | Usart
    | Math | Parser | String
    | Node

  const SUBSYSTEM_COUNT: nat := 14

  /** Declaration position of a subsystem. */
  function Position(s: Subsystem): (i: nat)
    ensures i < SUBSYSTEM_COUNT
  {
    match s
    case Adc1 => 0
    case Flash => 1
    case Iwdg => 2
    case Lptim1 => 3
    case Lpuart1 => 4
    case Nvm => 5
    case Rcc => 6
    case Rtc => 7
    case Tim21 => 8
    case Usart => 9
    case Math => 10
    case Parser => 11
    case String => 12
    case Node => 13
  }

  /** Base of the subsystem at position `i`; position |sizes| is ERROR_BASE_LAST.
      This is the enum's own chain ERROR_BASE_X = ERROR_BASE_PREV + PREV_ERROR_BASE_LAST. */
  function BaseAt(sizes: seq<nat>, i: nat): int
    requires i <= |sizes|
  {
    if i == 0 then ERROR_BASE_ADC1 else BaseAt(sizes, i - 1) + sizes[i - 1]
  }

  function Base(sizes: seq<nat>, s: Subsystem): int
    requires |sizes| == SUBSYSTEM_COUNT
  {
    BaseAt(sizes, Position(s))
  }

  /** ERROR_BASE_LAST. */
  function Last(sizes: seq<nat>): int {
    BaseAt(sizes, |sizes|)
  }

  /** Sum of range sizes, written from the front: an independent reference for the chain. */
  function Sum(sizes: seq<nat>): nat {
    if sizes == [] then 0 else sizes[0] + Sum(sizes[1..])
  }

  lemma {:induction false} SumSnoc(sizes: seq<nat>, x: nat)
    ensures Sum(sizes + [x]) == Sum(sizes) + x
  {
    if sizes != [] {
      assert (sizes + [x])[1..] == sizes[1..] + [x];
      SumSnoc(sizes[1..], x);
    }
  }

  /** Every base is ERROR_BASE_ADC1 plus the sizes of all earlier ranges. */
  lemma {:induction false} BaseIsPrefixSum(sizes: seq<nat>, i: nat)
    requires i <= |sizes|
    ensures BaseAt(sizes, i) == ERROR_BASE_ADC1 + Sum(sizes[..i])
  {
    if i > 0 {
      BaseIsPrefixSum(sizes, i - 1);
      assert sizes[..i] == sizes[..i - 1] + [sizes[i - 1]];
      SumSnoc(sizes[..i - 1], sizes[i - 1]);
    }
  }

  /** Bases never decrease along the declaration order. */
  lemma {:induction false} BaseMonotone(sizes: seq<nat>, i: nat, j: nat)
    requires i <= j <= |sizes|
    ensures BaseAt(sizes, i) <= BaseAt(sizes, j)
  {
    if i < j {
      BaseMonotone(sizes, i, j - 1);
    }
  }

  /** With every range non-empty, bases strictly increase. */
  lemma {:induction false} BaseStrictlyIncreasing(sizes: seq<nat>, i: nat, j: nat)
    requires forall k :: 0 <= k < |sizes| ==> sizes[k] > 0
    requires i < j <= |sizes|
    ensures BaseAt(sizes, i) < BaseAt(sizes, j)
  {
    if i < j - 1 {
      BaseStrictlyIncreasing(sizes, i, j - 1);
    }
  }

  /** The application-local codes are 1..5, distinct, and below every subsystem base. */
  lemma LocalCodesBelowEveryBase(sizes: seq<nat>, i: nat)
    requires i <= |sizes|
    ensures SUCCESS == 0
    ensures [ERROR_REGISTER_ADDRESS, ERROR_REGISTER_READ_ONLY, ERROR_RS485_ADDRESS,
             ERROR_BUSY_SPY_RUNNING, ERROR_TX_DISABLED] == [1, 2, 3, 4, 5]
    ensures ERROR_TX_DISABLED < ERROR_BASE_ADC1 <= BaseAt(sizes, i)
  {
    BaseMonotone(sizes, 0, i);
  }

  /** Where a code comes from in the namespace. */
  datatype Origin =
    | Success
    | Application(code: int)
    | InRange(position: nat, local: nat)
    | Unassigned

  /** The code an origin stands for (Unassigned has none; -1 stands in). */
  function Code(sizes: seq<nat>, o: Origin): int {
    match o
    case Success => SUCCESS
    case Application(c) => c
    case InRange(i, l) => if i < |sizes| then BaseAt(sizes, i) + l else -1
    case Unassigned => -1
  }

  /** Attribute a code to its owner by scanning the ranges in declaration order. */
  function Classify(sizes: seq<nat>, code: int): Origin {
    if code == SUCCESS then Success
    else if 0 < code < ERROR_BASE_ADC1 then Application(code)
    else ClassifyFrom(sizes, 0, code)
  }

  function ClassifyFrom(sizes: seq<nat>, i: nat, code: int): Origin
    requires i <= |sizes|
    decreases |sizes| - i
  {
    if i == |sizes| then Unassigned
    else if BaseAt(sizes, i) <= code < BaseAt(sizes, i + 1) then InRange(i, code - BaseAt(sizes, i))
    else ClassifyFrom(sizes, i + 1, code)
  }

  lemma {:induction false} ClassifyFromFinds(sizes: seq<nat>, j: nat, i: nat, local: nat)
    requires j <= i < |sizes| && local < sizes[i]
    ensures ClassifyFrom(sizes, j, BaseAt(sizes, i) + local) == InRange(i, local)
    decreases i - j
  {
    if j < i {
      BaseMonotone(sizes, j + 1, i);
      ClassifyFromFinds(sizes, j + 1, i, local);
    }
  }

  lemma {:induction false} ClassifyFromCovers(sizes: seq<nat>, i: nat, code: int)
    requires i <= |sizes| && BaseAt(sizes, i) <= code < Last(sizes)
    ensures ClassifyFrom(sizes, i, code).InRange?
    ensures Code(sizes, ClassifyFrom(sizes, i, code)) == code
    decreases |sizes| - i
  {
    if i == |sizes| {
      assert false;
    } else if !(code < BaseAt(sizes, i + 1)) {
      ClassifyFromCovers(sizes, i + 1, code);
    }
  }

  /** Ranges never overlap: a subsystem-local code is attributed back to its own subsystem. */
  lemma ClassifyCode(sizes: seq<nat>, i: nat, local: nat)
    requires i < |sizes| && local < sizes[i]
    ensures Classify(sizes, Code(sizes, InRange(i, local))) == InRange(i, local)
  {
    BaseMonotone(sizes, 0, i);
    ClassifyFromFinds(sizes, 0, i, local);
  }

  /** Every code from SUCCESS up to ERROR_BASE_LAST has an owner and stands for itself. */
  lemma CodeClassify(sizes: seq<nat>, code: int)
    requires 0 <= code < Last(sizes)
    ensures Classify(sizes, code) != Unassigned
    ensures Code(sizes, Classify(sizes, code)) == code
  {
    if code >= ERROR_BASE_ADC1 {
      ClassifyFromCovers(sizes, 0, code);
    }
  }

  /** ERROR_status_check: the error-stack pushes issued for one status. */
  function StatusCheck(status: int, success: int, base: int): (pushed: seq<int>)
    ensures pushed == [] <==> status == success
    ensures |pushed| <= 1
    ensures pushed != [] ==> pushed[0] == base + status
  {
    if status != success then [base + status] else []
  }

  /** A failing subsystem status is pushed as a code attributed to that subsystem. */
  lemma StatusCheckAttributes(sizes: seq<nat>, s: Subsystem, status: int)
    requires |sizes| == SUBSYSTEM_COUNT
    requires 0 < status < sizes[Position(s)]
    ensures var pushed := StatusCheck(status, SUCCESS, Base(sizes, s));
            |pushed| == 1 && Classify(sizes, pushed[0]) == InRange(Position(s), status)
  {
    ClassifyCode(sizes, Position(s), status);
  }

  /** What ERROR_status_check_print decides: carry on, or print the code and leave. */
  datatype Verdict = Proceed | Abort(code: int)

  /** ERROR_status_check_print: abort with `base + status` exactly when the status is a failure. */
  function CheckPrint(status: int, success: int, base: int): (v: Verdict)
    ensures v.Abort? <==> status != success
    ensures v.Abort? ==> v.code == base + status
  {
    if status != success then Abort(base + status) else Proceed
  }
}
