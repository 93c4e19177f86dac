/** Types shared by every part of the model: optional values, the tagged
    error type that stands for the exceptions the service throws, results
    of fallible operations, and the string predicates the source gets from
    JavaScript's `String.prototype` (`startsWith`, `endsWith`, `includes`,
    `toLowerCase`). */
module Base {

  type Path = string

  /** Milliseconds since the epoch, the value `Date.getTime()` yields. */
  type Millis = int

  /** An embedding vector. Float32 rounding is not modelled. */
  type Vector = seq<real>

  datatype Option<+T> = None | Some(value: T)

  /** What a call into the embedding client may throw: an `Error` object
      with a message, or some other value. */
  datatype Thrown = ErrorObject(message: string) | NonErrorValue

  datatype SqlFailure =
    | NoSuchTable          // a statement names `vec_index` before it was created
    | DimensionMismatch    // sqlite-vec refuses a vector of the wrong length
    | ConstraintViolation  // a UNIQUE or PRIMARY KEY constraint fails

  datatype InvalidPathReason = NotFound | NotADirectory

  /** The exceptions of the service, one tag per class. */
  datatype Error =
    | DatabaseNotInitialized          // "Database not initialized. Call initDatabase() first."
    | Sql(failure: SqlFailure)
    | OllamaConnectionError
    | OllamaModelNotFoundError
    | ContextLengthExceededError
    | Rethrown(cause: Thrown)         // passed on unchanged by the provider
    | InvalidPathError(reason: InvalidPathReason)
    | DirectoryNotFoundError
    | FsError(code: string)           // an `fs.stat` failure other than ENOENT
    | ProbeFailed                     // start-up: "Cannot connect to Ollama or model ... not available"

  datatype Result<+T> = Ok(value: T) | Err(error: Error) {
    predicate IsFailure() { Err? }
    function PropagateFailure<U>(): Result<U> requires Err? { Err(error) }
    function Extract(): T requires Ok? { value }
  }

  /** The result of an operation that returns nothing. */
  datatype Outcome = Pass | Fail(error: Error) {
    predicate IsFailure() { Fail? }
    function PropagateFailure<U>(): Result<U> requires Fail? { Err(error) }
  }

  predicate StartsWith(s: string, prefix: string) {
    |prefix| <= |s| && s[..|prefix|] == prefix
  }

  predicate EndsWith(s: string, suffix: string) {
    |suffix| <= |s| && s[|s| - |suffix|..] == suffix
  }

  /** `s.includes(sub)`. */
  function Contains(s: string, sub: string): bool
    decreases |s|
  {
    StartsWith(s, sub) || (|s| > 0 && Contains(s[1..], sub))
  }

  /** `sub` occurs in `s` starting at index `i`. */
  predicate OccursAt(s: string, sub: string, i: int) {
    0 <= i <= |s| - |sub| && s[i..i + |sub|] == sub
  }

  /** `Contains` holds exactly when `sub` occurs at some position of `s`. */
  lemma {:induction false} ContainsIffOccurs(s: string, sub: string)
    ensures Contains(s, sub) <==> exists i :: OccursAt(s, sub, i)
    decreases |s|
  {
    if StartsWith(s, sub) {
      assert OccursAt(s, sub, 0);
    } else if |s| == 0 {
    } else {
      ContainsIffOccurs(s[1..], sub);
      if Contains(s[1..], sub) {
        var i :| OccursAt(s[1..], sub, i);
        assert s[i + 1..i + 1 + |sub|] == s[1..][i..i + |sub|];
        assert OccursAt(s, sub, i + 1);
      }
      if exists i :: OccursAt(s, sub, i) {
        var i :| OccursAt(s, sub, i);
        if i > 0 {
          assert s[1..][i - 1..i - 1 + |sub|] == s[i..i + |sub|];
          assert OccursAt(s[1..], sub, i - 1);
        }
      }
    }
  }

  function AsciiLowerChar(c: char): char {
    if 'A' <= c <= 'Z' then (c as int + 32) as char else c
  }

  /** `toLowerCase` restricted to ASCII letters. */
  function AsciiLower(s: string): (r: string)
    ensures |r| == |s|
    ensures forall i :: 0 <= i < |s| ==> r[i] == AsciiLowerChar(s[i])
  {
    seq(|s|, i requires 0 <= i < |s| => AsciiLowerChar(s[i]))
  }

  /** Taking the element at `k` out of `b`. */
  lemma MultisetRemoveAt<T>(b: seq<T>, k: nat)
    requires k < |b|
    ensures multiset(b) == multiset(b[..k] + b[k + 1..]) + multiset{b[k]}
  {
    assert b == b[..k] + [b[k]] + b[k + 1..];
  }

  /** Two sequences with the same elements still have the same elements
      once the last element of the first is taken out of both. */
  lemma MultisetRemoveLast<T>(a: seq<T>, b: seq<T>, k: nat)
    requires multiset(a) == multiset(b) && a != [] && k < |b| && b[k] == a[|a| - 1]
    ensures multiset(a[..|a| - 1]) == multiset(b[..k] + b[k + 1..])
  {
    MultisetRemoveAt(b, k);
    MultisetRemoveAt(a, |a| - 1);
    var x := b[k];
    assert a[..|a| - 1] + a[|a| - 1 + 1..] == a[..|a| - 1];
    assert multiset(a[..|a| - 1]) == multiset(a[..|a| - 1]) + multiset{x} - multiset{x};
    assert multiset(b[..k] + b[k + 1..]) == multiset(b[..k] + b[k + 1..]) + multiset{x} - multiset{x};
  }
}
