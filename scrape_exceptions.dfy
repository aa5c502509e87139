/** The error taxonomy of the scraping engine (minet/scrape/exceptions.py).

    The Python source is a class hierarchy whose constructors store payload
    attributes once. Here the hierarchy is written twice, independently:
    as the table of declared base classes (`Base`, from which `IsSubclass`
    follows, as Python's `issubclass` does), and as a datatype of raised
    errors whose variants carry exactly the payload each constructor stores.
    The lemmas connect the two. */
module ScrapeExceptions {
  import opened Wrappers

  /** Every class declared in the file. The root `MinetError` is declared
      elsewhere and is not part of this model. */
  datatype ErrorClass =
    | ScrapeError
    | InvalidScraperError
    | CSSSelectorTooComplex
    | ScraperRuntimeError
    | ScraperEvalError
    | NotATableError
    | ScraperEvalSyntaxError
    | ScraperEvalTypeError
    | ScraperEvalNoneError
    | ScraperValidationError
    | ScraperValidationMixedConcernError
    | ScraperValidationConflictError
    | ScraperValidationIrrelevantPluralModifierError
    | ScraperValidationInvalidPluralModifierError
    | InvalidCSSSelectorError

  /** Number of declared ancestors below the root `MinetError`. */
  function Depth(c: ErrorClass): nat
  {
    match c
    case ScrapeError => 0
    case InvalidScraperError => 1
    case CSSSelectorTooComplex => 1
    case ScraperRuntimeError => 1
    case _ => 2
  }

  /** The base class named in each class statement (`ScrapeError`'s base,
      `MinetError`, is outside the model). The hierarchy has no cycle. */
  function Base(c: ErrorClass): (b: Option<ErrorClass>)
    ensures b.Some? ==> Depth(b.value) < Depth(c)
    ensures b.None? <==> c == ScrapeError
  {
    match c
    case ScrapeError => None
    case InvalidScraperError => Some(ScrapeError)
    case CSSSelectorTooComplex => Some(ScrapeError)
    case ScraperRuntimeError => Some(ScrapeError)
    case _ => Some(ScraperRuntimeError)
  }

  /** Python's `issubclass(c, d)` over the declared bases. */
  predicate IsSubclass(c: ErrorClass, d: ErrorClass)
    decreases Depth(c)
  {
    c == d || (Base(c).Some? && IsSubclass(Base(c).value, d))
  }

  /** A Python value stored in an error attribute. Attributes are
      dynamically typed, so this is the small universe the model needs. */
  datatype PyValue =
    | PyNone
    | PyStr(s: string)
    | PyList(items: seq<PyValue>)
    | PyErr(e: ScrapeException)

  /** The extra payload of the runtime-error subclasses that add one. */
  datatype RuntimeKind =
    | RuntimeBase
    | EvalFailed
    | NotATable
    | EvalSyntax
    | EvalType(expected: PyValue, got: PyValue)
    | EvalNone
    | Validation
    | MixedConcern
    | Conflict(keys: PyValue)
    | IrrelevantPluralModifier(modifier: PyValue)
    | InvalidPluralModifier(modifier: PyValue)
    | InvalidCSSSelector

  /** A raised scrape error with the attributes its constructor stored. */
  datatype ScrapeException =
    | Scrape(msg: PyValue)
    | InvalidScraper(msg: PyValue, validationErrors: PyValue)
    | TooComplex(msg: PyValue)
    | Runtime(kind: RuntimeKind, msg: PyValue, reason: PyValue, expression: PyValue, path: PyValue)

  /** The class an error value is an instance of. */
  function ClassOf(e: ScrapeException): ErrorClass
  {
    match e
    case Scrape(_) => ScrapeError
    case InvalidScraper(_, _) => InvalidScraperError
    case TooComplex(_) => CSSSelectorTooComplex
    case Runtime(k, _, _, _, _) =>
      match k
      case RuntimeBase => ScraperRuntimeError
      case EvalFailed => ScraperEvalError
      case NotATable => NotATableError
      case EvalSyntax => ScraperEvalSyntaxError
      case EvalType(_, _) => ScraperEvalTypeError
      case EvalNone => ScraperEvalNoneError
      case Validation => ScraperValidationError
      case MixedConcern => ScraperValidationMixedConcernError
      case Conflict(_) => ScraperValidationConflictError
      case IrrelevantPluralModifier(_) => ScraperValidationIrrelevantPluralModifierError
      case InvalidPluralModifier(_) => ScraperValidationInvalidPluralModifierError
      case InvalidCSSSelector => InvalidCSSSelectorError
  }

  /** The keyword arguments each constructor accepts besides `msg`. A
      `ScraperRuntimeError` subclass forwards its remaining keywords to
      `ScraperRuntimeError.__init__`, which takes `reason`, `expression`
      and `path`; classes without an `__init__` of their own accept none. */
  function Accepted(c: ErrorClass): set<string>
  {
    match c
    case ScrapeError => {}
    case CSSSelectorTooComplex => {}
    case InvalidScraperError => {"validation_errors"}
    case ScraperEvalTypeError => {"expected", "got", "reason", "expression", "path"}
    case ScraperValidationConflictError => {"keys", "reason", "expression", "path"}
    case ScraperValidationIrrelevantPluralModifierError => {"modifier", "reason", "expression", "path"}
    case ScraperValidationInvalidPluralModifierError => {"modifier", "reason", "expression", "path"}
    case _ => {"reason", "expression", "path"}
  }

  /** A keyword argument that the constructor does not take: Python's
      `TypeError: __init__() got an unexpected keyword argument`. */
  datatype ConstructError = UnexpectedKeywords(names: set<string>)

  function Arg(kwargs: map<string, PyValue>, name: string, default: PyValue): PyValue
  {
    if name in kwargs then kwargs[name] else default
  }

  /** Calling `c(msg, **kwargs)`. Every keyword left out takes its default:
      `None`, except `validation_errors` and `keys`, which default to `[]`. */
  function Construct(c: ErrorClass, msg: PyValue, kwargs: map<string, PyValue>): (r: Result<ScrapeException, ConstructError>)
    ensures r.Ok? <==> kwargs.Keys <= Accepted(c)
    ensures r.Err? ==> r.error.names == kwargs.Keys - Accepted(c) && r.error.names != {}
    ensures r.Ok? ==> ClassOf(r.value) == c && r.value.msg == msg
  {
    if !(kwargs.Keys <= Accepted(c)) then Err(UnexpectedKeywords(kwargs.Keys - Accepted(c)))
    else
      var reason := Arg(kwargs, "reason", PyNone);
      var expression := Arg(kwargs, "expression", PyNone);
      var path := Arg(kwargs, "path", PyNone);
      var modifier := Arg(kwargs, "modifier", PyNone);
      match c
      case ScrapeError => Ok(Scrape(msg))
      case CSSSelectorTooComplex => Ok(TooComplex(msg))
      case InvalidScraperError => Ok(InvalidScraper(msg, Arg(kwargs, "validation_errors", PyList([]))))
      case ScraperRuntimeError => Ok(Runtime(RuntimeBase, msg, reason, expression, path))
      case ScraperEvalError => Ok(Runtime(EvalFailed, msg, reason, expression, path))
      case NotATableError => Ok(Runtime(NotATable, msg, reason, expression, path))
      case ScraperEvalSyntaxError => Ok(Runtime(EvalSyntax, msg, reason, expression, path))
      case ScraperEvalTypeError =>
        Ok(Runtime(EvalType(Arg(kwargs, "expected", PyNone), Arg(kwargs, "got", PyNone)), msg, reason, expression, path))
      case ScraperEvalNoneError => Ok(Runtime(EvalNone, msg, reason, expression, path))
      case ScraperValidationError => Ok(Runtime(Validation, msg, reason, expression, path))
      case ScraperValidationMixedConcernError => Ok(Runtime(MixedConcern, msg, reason, expression, path))
      case ScraperValidationConflictError =>
        Ok(Runtime(Conflict(Arg(kwargs, "keys", PyList([]))), msg, reason, expression, path))
      case ScraperValidationIrrelevantPluralModifierError =>
        Ok(Runtime(IrrelevantPluralModifier(modifier), msg, reason, expression, path))
      case ScraperValidationInvalidPluralModifierError =>
        Ok(Runtime(InvalidPluralModifier(modifier), msg, reason, expression, path))
      case InvalidCSSSelectorError => Ok(Runtime(InvalidCSSSelector, msg, reason, expression, path))
  }

  /** An error is a `ScraperRuntimeError` (by the declared bases) exactly
      when it carries the runtime payload `reason`, `expression` and `path`. */
  lemma RuntimeIffSubclass(e: ScrapeException)
    ensures IsSubclass(ClassOf(e), ScraperRuntimeError) <==> e.Runtime?
  {
    match e
    case Scrape(_) =>
    case InvalidScraper(_, _) =>
      assert Base(InvalidScraperError) == Some(ScrapeError);
    case TooComplex(_) =>
      assert Base(CSSSelectorTooComplex) == Some(ScrapeError);
    case Runtime(k, _, _, _, _) =>
  }

  /** Every class of the file is a `ScrapeError`. */
  lemma AllAreScrapeErrors(c: ErrorClass)
    ensures IsSubclass(c, ScrapeError)
  {
    if Base(c).Some? && Base(c).value != ScrapeError {
      assert Base(Base(c).value) == Some(ScrapeError);
    }
  }

  /** Exactly the subclasses of `ScraperRuntimeError` take the keywords
      `reason`, `expression` and `path`. */
  lemma RuntimeKeywords(c: ErrorClass)
    ensures IsSubclass(c, ScraperRuntimeError) <==> {"reason", "expression", "path"} <= Accepted(c)
  {
    match c
    case ScrapeError =>
      assert "reason" !in Accepted(c);
    case InvalidScraperError =>
      assert Base(c) == Some(ScrapeError);
      assert "reason" !in Accepted(c);
    case CSSSelectorTooComplex =>
      assert Base(c) == Some(ScrapeError);
      assert "reason" !in Accepted(c);
    case _ =>
  }

  /** The validation errors, `InvalidCSSSelectorError`, `NotATableError`
      and the eval errors. */
  function ListedRuntimeClasses(): set<ErrorClass>
  {
    {ScraperValidationError, ScraperValidationMixedConcernError,
     ScraperValidationConflictError, ScraperValidationIrrelevantPluralModifierError,
     ScraperValidationInvalidPluralModifierError, InvalidCSSSelectorError,
     NotATableError, ScraperEvalError, ScraperEvalSyntaxError, ScraperEvalTypeError,
     ScraperEvalNoneError}
  }

  /** `InvalidScraperError` and `CSSSelectorTooComplex` are scrape errors
      but not runtime errors; the validation errors, `InvalidCSSSelectorError`,
      `NotATableError` and the eval errors are runtime errors. */
  lemma Classification()
    ensures !IsSubclass(InvalidScraperError, ScraperRuntimeError)
    ensures !IsSubclass(CSSSelectorTooComplex, ScraperRuntimeError)
    ensures Base(CSSSelectorTooComplex) == Some(ScrapeError)
    ensures forall c :: c in ListedRuntimeClasses() ==> IsSubclass(c, ScraperRuntimeError)
  {
    assert IsSubclass(ScrapeError, ScrapeError);
  }

  /** With no keyword given, every payload attribute takes its default;
      `validation_errors` and `keys` start as empty lists. */
  lemma Defaults(c: ErrorClass, msg: PyValue)
    ensures Construct(c, msg, map[]).Ok?
    ensures var e := Construct(c, msg, map[]).value;
      && (e.Runtime? ==> e.reason == PyNone && e.expression == PyNone && e.path == PyNone)
      && (e.InvalidScraper? ==> e.validationErrors == PyList([]))
      && (e.Runtime? && e.kind.Conflict? ==> e.kind.keys == PyList([]))
      && (e.Runtime? && e.kind.EvalType? ==> e.kind.expected == PyNone && e.kind.got == PyNone)
      && (e.Runtime? && (e.kind.IrrelevantPluralModifier? || e.kind.InvalidPluralModifier?) ==> e.kind.modifier == PyNone)
  {
  }

  /** A runtime error stores the `reason`, `expression` and `path` it was
      given; `ScraperEvalTypeError` stores `expected` and `got` as well,
      `ScraperValidationConflictError` its `keys`, and the two plural
      modifier errors their `modifier`. */
  lemma RuntimeStoresArguments(c: ErrorClass, msg: PyValue, kwargs: map<string, PyValue>)
    requires IsSubclass(c, ScraperRuntimeError) && kwargs.Keys <= Accepted(c)
    ensures var e := Construct(c, msg, kwargs).value;
      && e.Runtime?
      && e.reason == Arg(kwargs, "reason", PyNone)
      && e.expression == Arg(kwargs, "expression", PyNone)
      && e.path == Arg(kwargs, "path", PyNone)
      && (c == ScraperEvalTypeError ==>
            e.kind.expected == Arg(kwargs, "expected", PyNone) && e.kind.got == Arg(kwargs, "got", PyNone))
      && (c == ScraperValidationConflictError ==> e.kind.keys == Arg(kwargs, "keys", PyList([])))
      && (c == ScraperValidationIrrelevantPluralModifierError || c == ScraperValidationInvalidPluralModifierError ==>
            e.kind.modifier == Arg(kwargs, "modifier", PyNone))
  {
    RuntimeKeywords(c);
    RuntimeIffSubclass(Construct(c, msg, kwargs).value);
  }

  /** `InvalidScraperError` stores the `validation_errors` it was given,
      and an empty list otherwise. */
  lemma InvalidScraperStoresErrors(msg: PyValue, kwargs: map<string, PyValue>)
    requires kwargs.Keys <= {"validation_errors"}
    ensures Construct(InvalidScraperError, msg, kwargs) ==
      Ok(InvalidScraper(msg, Arg(kwargs, "validation_errors", PyList([]))))
  {
  }
}
