/** Error taxonomy of the command-line tool and the result type every core operation returns. */
module Errors {

  /** The four error kinds. `Ambiguous` carries the candidate list ("<id> <name>") the message shows. */
  datatype CliError =
    | Usage
    | NotFound
    | Ambiguous(candidates: seq<string>)
    | IO

  /** Process exit code of each kind. */
  function ExitCode(e: CliError): (code: int)
    ensures 2 <= code <= 5
    ensures e.Usage? <==> code == 2
    ensures e.NotFound? <==> code == 3
    ensures e.Ambiguous? <==> code == 4
    ensures e.IO? <==> code == 5
  {
    match e
    case Usage => 2
    case NotFound => 3
    case Ambiguous(_) => 4
    case IO => 5
  }

  datatype Option<+T> = None | Some(value: T) {
    function GetOr(default: T): T {
      if Some? then value else default
    }
  }

  datatype Result<+T> = Ok(value: T) | Err(error: CliError) {
    predicate IsFailure() { Err? }
    function PropagateFailure<U>(): Result<U>
      requires Err?
    {
      Err(error)
    }
    function Extract(): T
      requires Ok?
    {
      value
    }
  }

  /** Outcome of a validation that yields no value. */
  datatype Outcome = Pass | Fail(error: CliError)

  /**
   * `f` applied to each of `xs` in order and collected, as a loop that
   * returns the first error it meets: the values when every call succeeds,
   * else the error of the first call that fails.
   */
  function CollectAll<T, U>(xs: seq<T>, f: T --> Result<U>): (r: Result<seq<U>>)
    requires forall i :: 0 <= i < |xs| ==> f.requires(xs[i])
    ensures r.Ok? <==> forall i :: 0 <= i < |xs| ==> f(xs[i]).Ok?
    ensures r.Ok? ==> |r.value| == |xs| && forall i :: 0 <= i < |xs| ==> r.value[i] == f(xs[i]).value
    ensures r.Err? ==>
      exists i :: 0 <= i < |xs| && f(xs[i]).Err? && r.error == f(xs[i]).error && forall j :: 0 <= j < i ==> f(xs[j]).Ok?
  {
    if xs == [] then Ok([])
    else
      var front := xs[..|xs| - 1];
      assert forall i :: 0 <= i < |front| ==> front[i] == xs[i];
      var vs :- CollectAll(front, f);
      var v :- f(xs[|xs| - 1]);
      Ok(vs + [v])
  }

  /** One more element whose call succeeds after a prefix that succeeds appends its value. */
  lemma CollectAllSnoc<T, U>(xs: seq<T>, f: T --> Result<U>, i: int)
    requires 0 <= i < |xs| && forall j :: 0 <= j < |xs| ==> f.requires(xs[j])
    requires CollectAll(xs[..i], f).Ok? && f(xs[i]).Ok?
    ensures CollectAll(xs[..i + 1], f) == Ok(CollectAll(xs[..i], f).value + [f(xs[i]).value])
  {
    var all := xs[..i + 1];
    assert all[..|all| - 1] == xs[..i];
  }
}
