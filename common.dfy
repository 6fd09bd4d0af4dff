/**
 * Shared vocabulary of the MapReduce library (src/mapreduce/common.go):
 * the job phase, the key/value record, and the names of the intermediate
 * and result files.
 */
module Common {

  /** Go strings are byte strings: keys and values are modelled as bytes. */
  newtype byte = b: int | 0 <= b < 256
  type Bytes = seq<byte>

  /** The phase a task is scheduled in. */
  datatype JobPhase = MapPhase | ReducePhase

  /** A key/value pair passed to the map and reduce functions. */
  datatype KeyValue = KeyValue(key: Bytes, value: Bytes)

  predicate IsDigit(c: char) {
    '0' <= c <= '9'
  }

  predicate AllDigits(s: string) {
    forall i :: 0 <= i < |s| ==> IsDigit(s[i])
  }

  function DigitChar(d: nat): (c: char)
    requires d < 10
    ensures IsDigit(c)
  {
    ('0' as int + d) as char
  }

  /** Decimal digits of a natural number, most significant first, without leading zeros. */
  function NatToDecimal(n: nat): string {
    if n < 10 then [DigitChar(n)] else NatToDecimal(n / 10) + [DigitChar(n % 10)]
  }

  /** strconv.Itoa: decimal text of an int, with a leading '-' for negative numbers. */
  function Itoa(i: int): string {
    if i < 0 then "-" + NatToDecimal(-i) else NatToDecimal(i)
  }

  /** The decimal text is digits only, and a single digit exactly for numbers below ten. */
  lemma {:induction false} NatToDecimalDigits(n: nat)
    ensures |NatToDecimal(n)| >= 1 && AllDigits(NatToDecimal(n))
    ensures (|NatToDecimal(n)| == 1) == (n < 10)
  {
    if n >= 10 {
      NatToDecimalDigits(n / 10);
    }
  }

  /** Itoa's text is non-empty, starts with '-' exactly for negative numbers, and is digits otherwise. */
  lemma ItoaShape(i: int)
    ensures |Itoa(i)| >= 1
    ensures Itoa(i)[0] == '-' <==> i < 0
    ensures i >= 0 ==> AllDigits(Itoa(i))
    ensures i < 0 ==> AllDigits(Itoa(i)[1..])
  {
    if i < 0 {
      NatToDecimalDigits(-i);
      assert Itoa(i)[1..] == NatToDecimal(-i);
    } else {
      NatToDecimalDigits(i);
    }
  }

  /** Name of the intermediate file that map task mapTask writes for reduce task reduceTask. */
  function ReduceName(jobName: string, mapTask: int, reduceTask: int): string {
    "mrtmp." + jobName + "-" + Itoa(mapTask) + "-" + Itoa(reduceTask)
  }

  /** Name of the output file of reduce task reduceTask. */
  function MergeName(jobName: string, reduceTask: int): string {
    "mrtmp." + jobName + "-res-" + Itoa(reduceTask)
  }

  lemma DigitCharInjective(a: nat, b: nat)
    requires a < 10 && b < 10 && DigitChar(a) == DigitChar(b)
    ensures a == b
  {
  }

  /** Distinct natural numbers have distinct decimal spellings. */
  lemma {:induction false} NatToDecimalInjective(a: nat, b: nat)
    requires NatToDecimal(a) == NatToDecimal(b)
    ensures a == b
  {
    var s := NatToDecimal(a);
    NatToDecimalDigits(a);
    NatToDecimalDigits(b);
    if a < 10 {
      assert b < 10;
      DigitCharInjective(a, b);
    } else {
      assert b >= 10;
      assert s[|s| - 1] == DigitChar(a % 10) == DigitChar(b % 10);
      DigitCharInjective(a % 10, b % 10);
      assert NatToDecimal(a / 10) == s[..|s| - 1] == NatToDecimal(b / 10);
      NatToDecimalInjective(a / 10, b / 10);
    }
  }

  /** strconv.Itoa is injective on all ints. */
  lemma ItoaInjective(a: int, b: int)
    requires Itoa(a) == Itoa(b)
    ensures a == b
  {
    ItoaShape(a);
    ItoaShape(b);
    if a < 0 {
      assert NatToDecimal(-a) == Itoa(a)[1..] == Itoa(b)[1..] == NatToDecimal(-b);
      NatToDecimalInjective(-a, -b);
    } else {
      NatToDecimalInjective(a, b);
    }
  }

  /** The decimal text of an int contains '-' only as its first character. */
  lemma ItoaDashOnlyFirst(i: int, k: int)
    requires 0 < k < |Itoa(i)|
    ensures Itoa(i)[k] != '-'
  {
    ItoaShape(i);
    if i < 0 {
      assert Itoa(i)[k] == Itoa(i)[1..][k - 1];
    }
  }

  /**
   * Reading "<itoa x>-<rest>" back: the '-' that follows an Itoa text is the first
   * '-' after its leading character, so both parts are recovered.
   */
  lemma {:induction false} SplitAfterItoa(x: int, y: string, x': int, y': string)
    requires Itoa(x) + "-" + y == Itoa(x') + "-" + y'
    ensures x == x' && y == y'
  {
    var s, t := Itoa(x), Itoa(x');
    ItoaShape(x);
    ItoaShape(x');
    var w := s + "-" + y;
    assert s[0] == w[0] == t[0];
    if |s| < |t| {
      assert w[|s|] == '-';
      assert w[|s|] == t[|s|];
      ItoaDashOnlyFirst(x', |s|);
      assert false;
    } else if |t| < |s| {
      assert w[|t|] == '-';
      assert w[|t|] == s[|t|];
      ItoaDashOnlyFirst(x, |t|);
      assert false;
    }
    assert s == w[..|s|] == t;
    ItoaInjective(x, x');
    assert y == w[|s| + 1..] == y';
  }

  lemma CancelPrefix(p: string, a: string, b: string)
    requires p + a == p + b
    ensures a == b
  {
    assert a == (p + a)[|p|..];
    assert b == (p + b)[|p|..];
  }

  /** ReduceName read as a job prefix followed by the two task numbers. */
  lemma ReduceNameShape(jobName: string, m: int, r: int)
    ensures ReduceName(jobName, m, r) == ("mrtmp." + jobName + "-") + (Itoa(m) + "-" + Itoa(r))
  {
  }

  /** MergeName read as a job prefix followed by the reduce task number. */
  lemma MergeNameShape(jobName: string, r: int)
    ensures MergeName(jobName, r) == ("mrtmp." + jobName + "-") + ("res-" + Itoa(r))
  {
  }

  /** For a fixed job, distinct (map task, reduce task) pairs name distinct intermediate files. */
  lemma {:induction false} ReduceNameInjective(jobName: string, m: int, r: int, m': int, r': int)
    requires ReduceName(jobName, m, r) == ReduceName(jobName, m', r')
    ensures m == m' && r == r'
  {
    ReduceNameShape(jobName, m, r);
    ReduceNameShape(jobName, m', r');
    CancelPrefix("mrtmp." + jobName + "-", Itoa(m) + "-" + Itoa(r), Itoa(m') + "-" + Itoa(r'));
    SplitAfterItoa(m, Itoa(r), m', Itoa(r'));
    ItoaInjective(r, r');
  }

  /** For a fixed job, distinct reduce tasks name distinct output files. */
  lemma {:induction false} MergeNameInjective(jobName: string, r: int, r': int)
    requires MergeName(jobName, r) == MergeName(jobName, r')
    ensures r == r'
  {
    MergeNameShape(jobName, r);
    MergeNameShape(jobName, r');
    CancelPrefix("mrtmp." + jobName + "-", "res-" + Itoa(r), "res-" + Itoa(r'));
    CancelPrefix("res-", Itoa(r), Itoa(r'));
    ItoaInjective(r, r');
  }

  /**
   * An intermediate file name is never an output file name of the same job:
   * after the shared prefix one continues with a digit or '-', the other with 'r'.
   */
  lemma {:induction false} ReduceNameNotMergeName(jobName: string, m: int, r: int, r': int)
    ensures ReduceName(jobName, m, r) != MergeName(jobName, r')
  {
    var p := "mrtmp." + jobName + "-";
    var a := Itoa(m) + "-" + Itoa(r);
    var b := "res-" + Itoa(r');
    ReduceNameShape(jobName, m, r);
    MergeNameShape(jobName, r');
    assert a[0] != b[0] by {
      ItoaShape(m);
      if m >= 0 {
        assert IsDigit(Itoa(m)[0]);
      }
    }
    if p + a == p + b {
      CancelPrefix(p, a, b);
      assert false;
    }
  }

  /** A sequence without repeated elements has as many distinct elements as entries. */
  lemma {:induction false} DistinctCard<T>(s: seq<T>)
    requires forall i, j :: 0 <= i < |s| && 0 <= j < |s| && s[i] == s[j] ==> i == j
    ensures |set x | x in s| == |s|
  {
    if |s| > 0 {
      var init := s[..|s| - 1];
      DistinctCard(init);
      assert (set x | x in s) == (set x | x in init) + {s[|s| - 1]};
    }
  }
}
