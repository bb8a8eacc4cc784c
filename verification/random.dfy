/** The random stream. Both implementations draw from one process-wide
    generator (a GMP Mersenne-Twister state in C, the `random` module in
    Python). The model replaces it by an explicit finite tape of raw draws:
    a draw "uniform in [0, m)" is the next tape entry reduced modulo `m`,
    which can produce every value the real generator can. When the tape runs
    out before an operation is decided, the operation yields `None`. */
module Random {

  datatype Option<T> = None | Some(value: T)

  /** A value together with the part of the tape left unread. */
  datatype Drawn<T> = Drawn(value: T, rest: seq<nat>)

  /** `rest` is what remains of `tape` after some draws. */
  predicate Suffix(rest: seq<nat>, tape: seq<nat>) {
    |rest| <= |tape| && rest == tape[|tape| - |rest|..]
  }

  lemma {:induction false} SuffixTrans(a: seq<nat>, b: seq<nat>, c: seq<nat>)
    requires Suffix(a, b) && Suffix(b, c)
    ensures Suffix(a, c)
  {
    assert c[|c| - |a|..] == c[|c| - |b|..][|b| - |a|..];
  }
}
