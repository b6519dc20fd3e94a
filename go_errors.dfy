/**
  Go's error values as the authentication service builds and inspects them:
  sentinels made by errors.New, fmt.Errorf with a %w verb (the operand stays
  reachable through Unwrap) and fmt.Errorf with a %v verb (only the operand's
  text is kept), together with errors.Is.
 */
module GoErrors {
  import opened Wrappers

  /** A value made by errors.New. Go compares such values by identity, which
      the model keeps as the qualified name of the variable that holds it. */
  datatype Sentinel = Sentinel(name: string, text: string)

  /** The verb fmt.Errorf is given for its error operand. */
  datatype Verb = W | V

  datatype Error =
      // the sentinel value itself
    | Root(sentinel: Sentinel)
      // fmt.Errorf("%s" + sep + "%w", fn, inner)
    | Wrapped(fn: string, sep: string, inner: Error)
      // fmt.Errorf("%s" + sep + "%v", fn, x), where shown is x.Error()
    | Formatted(fn: string, sep: string, shown: string)

  /** s is a trailing part of t. */
  predicate IsSuffix(s: string, t: string)
  {
    |s| <= |t| && t[|t| - |s|..] == s
  }

  lemma SuffixTransitive(a: string, b: string, c: string)
    requires IsSuffix(a, b) && IsSuffix(b, c)
    ensures IsSuffix(a, c)
  {
    assert c[|c| - |a|..] == c[|c| - |b|..][|b| - |a|..];
  }

  /** The text returned by the error's Error method; a %w wrap ends with the
      text of the error it wraps. */
  function Message(e: Error): (m: string)
    ensures e.Wrapped? ==> IsSuffix(Message(e.inner), m)
  {
    match e
    case Root(s) => s.text
    case Formatted(fn, sep, shown) => fn + sep + shown
    case Wrapped(fn, sep, inner) =>
      var m := fn + sep + Message(inner);
      assert m[|m| - |Message(inner)|..] == Message(inner);
      m
  }

  /** errors.Unwrap: a %w error yields the strictly smaller error it wraps;
      a sentinel and a %v rendering yield nil. */
  function Unwrap(e: Error): (r: Option<Error>)
    ensures e.Wrapped? ==> r == Some(e.inner)
    ensures r.Some? ==> r.value < e
    ensures e.Root? || e.Formatted? ==> r == None
  {
    if e.Wrapped? then Some(e.inner) else None
  }

  /** The errors errors.Is visits: e itself, then what Unwrap yields, until it yields nil. */
  function Chain(e: Error): (c: seq<Error>)
    ensures |c| >= 1 && c[0] == e
  {
    match Unwrap(e)
    case None => [e]
    case Some(inner) => [e] + Chain(inner)
  }

  /** Each step of Chain(e) is one Unwrap, and the last element unwraps to nil. */
  lemma {:induction false} ChainFollowsUnwrap(e: Error, i: nat)
    requires i < |Chain(e)|
    ensures i + 1 < |Chain(e)| ==> Unwrap(Chain(e)[i]) == Some(Chain(e)[i + 1])
    ensures i + 1 == |Chain(e)| ==> Unwrap(Chain(e)[i]) == None
  {
    match Unwrap(e)
    case None =>
    case Some(inner) =>
      if i > 0 {
        ChainFollowsUnwrap(inner, i - 1);
      }
  }

  /** The text of every error on e's unwrap chain is a trailing part of e's
      own text, so wrapping never hides the text of what it wraps. */
  lemma {:induction false} MessageEndsWithChain(e: Error, i: nat)
    requires i < |Chain(e)|
    ensures IsSuffix(Message(Chain(e)[i]), Message(e))
  {
    match Unwrap(e)
    case None =>
    case Some(inner) =>
      if i > 0 {
        MessageEndsWithChain(inner, i - 1);
        SuffixTransitive(Message(Chain(e)[i]), Message(inner), Message(e));
      }
  }

  /** errors.Is(err, target): some error on err's Unwrap chain is target itself. */
  function Is(err: Error, target: Sentinel): (r: bool)
    ensures r <==> Root(target) in Chain(err)
  {
    match err
    case Root(s) => s == target
    case Wrapped(_, _, inner) => Is(inner, target)
    case Formatted(_, _, _) => false
  }

  /** fmt.Errorf(fn + sep + "%w" or "%v", fn, operand). */
  function Errorf(fn: string, sep: string, verb: Verb, operand: Error): (r: Error)
    ensures Message(r) == fn + sep + Message(operand)
    ensures Unwrap(r) == (if verb == W then Some(operand) else None)
    ensures forall t :: Is(r, t) <==> verb == W && Is(operand, t)
  {
    match verb
    case W => Wrapped(fn, sep, operand)
    case V => Formatted(fn, sep, Message(operand))
  }

  /** err is operand wrapped with %w under the context prefix, so errors.Is
      sees through it and its text is prefix followed by the operand's text. */
  predicate Wraps(err: Error, prefix: string, operand: Error)
  {
    Unwrap(err) == Some(operand) && Message(err) == prefix + Message(operand)
  }

  /** A wrapped error matches exactly the sentinels its operand matches. */
  lemma WrapsKeepsClassification(err: Error, prefix: string, operand: Error, t: Sentinel)
    requires Wraps(err, prefix, operand)
    ensures Is(err, t) <==> Is(operand, t)
  {
  }
}
