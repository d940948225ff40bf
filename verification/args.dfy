/** Argument handling of the non-reducing axis functions: how `partsort`,
    `argpartsort`, `rankdata`, `nanrankdata` and `push` bind their positional
    and keyword arguments, and how `nonreducer_axis` turns the `axis` and `n`
    objects into the integers handed to a one-dimensional kernel.

    Python objects are reduced to what the code inspects: an integer, `None`,
    or anything else.  A keyword dictionary is a map from keyword name to
    object. */
module Args {

  import opened Wrappers
  import opened Counting

  datatype PyObj = IntObj(i: int) | NoneObj | OtherObj

  /** Which of the three parsers a function uses. */
  datatype Kind = PartSort | RankData | Push

  datatype ParseError =
    | WrongNumberOfArguments
    | MissingKeyword(name: string)
    | WrongNumberOfKeywords
    | TooManyArguments

  /** Errors raised by `nonreducer_axis` before a kernel runs. */
  datatype CallError =
    | BadArguments(reason: ParseError)
    | AxisOutOfBounds(axis: int)
    | AxisIsNone
    | AxisNotInteger
    | NNotInteger
    | NNegative

  datatype PyException = TypeError | ValueError

  /** The Python exception each error is raised as. */
  function ExceptionOf(e: CallError): PyException {
    match e
    case BadArguments(_) => TypeError
    case AxisOutOfBounds(_) => ValueError
    case AxisIsNone => ValueError
    case AxisNotInteger => TypeError
    case NNotInteger => TypeError
    case NNegative => ValueError
  }

  const INT_MIN: int := -0x8000_0000
  const INT_MAX: int := 0x7fff_ffff

  /** Conversion of an object to a C `int`: only integers in range convert. */
  function AsCInt(o: PyObj): (r: Option<int>)
    ensures r.Some? <==> o.IntObj? && INT_MIN <= o.i <= INT_MAX
    ensures r.Some? ==> r.value == o.i
  {
    if o.IntObj? && INT_MIN <= o.i <= INT_MAX then Some(o.i) else None
  }

  // ---------------------------------------------------------------------
  // Binding arguments to parameters.

  /** The parameter names of each parser, in positional order. */
  function Params(kind: Kind): (r: seq<string>)
    ensures |r| >= 2 && r[0] == "arr" && r[|r| - 1] == "axis"
  {
    match kind
    case PartSort => ["arr", "n", "axis"]
    case RankData => ["arr", "axis"]
    case Push => ["arr", "n", "axis"]
  }

  /** How many leading parameters have no default. */
  function Required(kind: Kind): (r: nat)
    ensures 1 <= r < |Params(kind)|
  {
    match kind
    case PartSort => 2
    case RankData => 1
    case Push => 1
  }

  /** The parameter lists the parsers use: distinct names, a non-empty
      required prefix and at least one optional parameter. */
  ghost predicate WellFormedParams(params: seq<string>, required: nat) {
    && 1 <= required < |params|
    && (forall i, j :: 0 <= i < j < |params| ==> params[i] != params[j])
  }

  lemma KindsWellFormed(kind: Kind)
    ensures WellFormedParams(Params(kind), Required(kind))
  {
  }

  /** The names bound positionally: `params[i]` gets `args[i]`. */
  function Positional(params: seq<string>, args: seq<PyObj>): (m: map<string, PyObj>)
    requires |args| <= |params|
    ensures m.Keys == set i | 0 <= i < |args| :: params[i]
  {
    if |args| == 0 then map[]
    else Positional(params, args[..|args| - 1])[params[|args| - 1] := args[|args| - 1]]
  }

  lemma PositionalValue(params: seq<string>, args: seq<PyObj>, i: nat)
    requires |args| <= |params|
    requires forall p, q :: 0 <= p < q < |params| ==> params[p] != params[q]
    requires i < |args|
    ensures params[i] in Positional(params, args)
    ensures Positional(params, args)[params[i]] == args[i]
  {
    if i < |args| - 1 {
      PositionalValue(params, args[..|args| - 1], i);
    }
  }

  /** The result of the keyword scan: the parameters found in the keyword
      dictionary and how many there were. */
  datatype Scanned = Scanned(bound: map<string, PyObj>, found: nat)

  /** The names among `params[i..]` that the keyword dictionary holds. */
  ghost function Named(params: seq<string>, kwds: map<string, PyObj>, i: nat): set<string>
    decreases |params| - i
  {
    if i >= |params| then {}
    else Named(params, kwds, i + 1) + (if params[i] in kwds then {params[i]} else {})
  }

  lemma {:induction false} NamedMembers(params: seq<string>, kwds: map<string, PyObj>, i: nat)
    ensures forall k :: k in Named(params, kwds, i) <==> k in kwds && exists j :: i <= j < |params| && params[j] == k
    decreases |params| - i
  {
    if i < |params| {
      NamedMembers(params, kwds, i + 1);
      forall k | k in kwds && (exists j :: i <= j < |params| && params[j] == k)
        ensures k in Named(params, kwds, i)
      {
        var j :| i <= j < |params| && params[j] == k;
        if j > i {
          assert exists j' :: i + 1 <= j' < |params| && params[j'] == k;
        }
      }
    }
  }

  /** Only parameter names are named. */
  lemma {:induction false} NamedAreParams(params: seq<string>, kwds: map<string, PyObj>, i: nat)
    ensures forall k :: k in Named(params, kwds, i) ==> k in params
    decreases |params| - i
  {
    if i < |params| {
      NamedAreParams(params, kwds, i + 1);
    }
  }

  /** At most one name per parameter. */
  lemma {:induction false} NamedCard(params: seq<string>, kwds: map<string, PyObj>, i: nat)
    requires i <= |params|
    ensures |Named(params, kwds, i)| <= |params| - i
    decreases |params| - i
  {
    if i < |params| {
      NamedCard(params, kwds, i + 1);
    }
  }

  /** A name that no parameter from `i` on carries is not among them. */
  lemma {:induction false} NotNamed(params: seq<string>, kwds: map<string, PyObj>, i: nat, k: string)
    requires forall j :: i <= j < |params| ==> params[j] != k
    ensures k !in Named(params, kwds, i)
    decreases |params| - i
  {
    if i < |params| {
      NotNamed(params, kwds, i + 1, k);
    }
  }

  /** Binding a fresh name adds exactly that name. */
  lemma BindFresh(m: map<string, PyObj>, k: string, v: PyObj)
    requires k !in m
    ensures m[k := v].Keys == m.Keys + {k}
    ensures |m[k := v].Keys| == |m.Keys| + 1
  {
    assert m[k := v].Keys == m.Keys + {k};
  }

  /** The fall-through `switch` over the keyword dictionary: starting at the
      first parameter not given positionally, each parameter is looked up;
      a missing required one is an error, a missing optional one is skipped. */
  function KeywordScan(params: seq<string>, required: nat, kwds: map<string, PyObj>, i: nat): (r: Result<Scanned, ParseError>)
    requires i <= |params|
    ensures r.Failure? ==> r.error.MissingKeyword?
    decreases |params| - i
  {
    if i == |params| then Success(Scanned(map[], 0))
    else if params[i] in kwds then
      var rest :- KeywordScan(params, required, kwds, i + 1);
      Success(Scanned(rest.bound[params[i] := kwds[params[i]]], rest.found + 1))
    else if i < required then Failure(MissingKeyword(params[i]))
    else KeywordScan(params, required, kwds, i + 1)
  }

  /** The scan fails exactly when a required parameter is missing. */
  lemma {:induction false} ScanSucceeds(params: seq<string>, required: nat, kwds: map<string, PyObj>, i: nat)
    requires i <= |params|
    ensures KeywordScan(params, required, kwds, i).Success? <==>
              forall j :: i <= j < required && j < |params| ==> params[j] in kwds
    decreases |params| - i
  {
    if i < |params| {
      ScanSucceeds(params, required, kwds, i + 1);
    }
  }

  /** A successful scan binds each named parameter to its keyword's object
      and counts them. */
  lemma {:induction false} ScanBinds(params: seq<string>, required: nat, kwds: map<string, PyObj>, i: nat)
    requires i <= |params|
    requires forall p, q :: 0 <= p < q < |params| ==> params[p] != params[q]
    requires KeywordScan(params, required, kwds, i).Success?
    ensures var s := KeywordScan(params, required, kwds, i).value;
      && s.bound.Keys == Named(params, kwds, i)
      && (forall k :: k in s.bound ==> k in kwds && s.bound[k] == kwds[k])
      && s.found == |s.bound.Keys|
    decreases |params| - i
  {
    if i < |params| {
      ScanBinds(params, required, kwds, i + 1);
      if params[i] in kwds {
        var rest := KeywordScan(params, required, kwds, i + 1).value;
        NotNamed(params, kwds, i + 1, params[i]);
        BindFresh(rest.bound, params[i], kwds[params[i]]);
      }
    }
  }

  /** One of `parse_partsort`, `parse_rankdata`, `parse_push`, written once
      over the parameter list: on success, the objects bound to each
      parameter name. */
  function CParse(params: seq<string>, required: nat, args: seq<PyObj>, kwds: map<string, PyObj>): (r: Result<map<string, PyObj>, ParseError>)
    requires WellFormedParams(params, required)
    ensures |kwds| == 0 ==> (r.Success? <==> required <= |args| <= |params|)
    ensures |kwds| > 0 && |args| >= |params| ==> r == Failure(WrongNumberOfArguments)
    ensures r != Failure(TooManyArguments)
  {
    if |kwds| > 0 then
      if |args| > |params| - 1 then Failure(WrongNumberOfArguments)
      else
        var scan :- KeywordScan(params, required, kwds, |args|);
        ScanBinds(params, required, kwds, |args|);
        NamedCard(params, kwds, |args|);
        if scan.found != |kwds| then Failure(WrongNumberOfKeywords)
        else if |args| + scan.found > |params| then Failure(TooManyArguments)
        else Success(Positional(params, args) + scan.bound)
    else if required <= |args| <= |params| then Success(Positional(params, args))
    else Failure(WrongNumberOfArguments)
  }

  /** The parser a function of the given kind uses. */
  function Parse(kind: Kind, args: seq<PyObj>, kwds: map<string, PyObj>): (r: Result<map<string, PyObj>, ParseError>)
    ensures r.Success? ==> "arr" in r.value
    ensures |kwds| == 0 ==> (r.Success? <==> Required(kind) <= |args| <= |Params(kind)|)
  {
    KindsWellFormed(kind);
    ParseMatchesBind(Params(kind), Required(kind), args, kwds);
    CParse(Params(kind), Required(kind), args, kwds)
  }

  /** A successful parse binds only parameter names. */
  lemma ParsedNames(kind: Kind, args: seq<PyObj>, kwds: map<string, PyObj>)
    requires Parse(kind, args, kwds).Success?
    ensures forall k :: k in Parse(kind, args, kwds).value ==> k in Params(kind)
  {
    var params, required := Params(kind), Required(kind);
    KindsWellFormed(kind);
    if |kwds| > 0 {
      var scan := KeywordScan(params, required, kwds, |args|);
      ScanSucceeds(params, required, kwds, |args|);
      assert scan.Success?;
      ScanBinds(params, required, kwds, |args|);
      NamedAreParams(params, kwds, |args|);
    }
  }

  /** Every keyword names a parameter past the first `nargs`. */
  ghost predicate KeywordsKnown(params: seq<string>, nargs: nat, kwds: map<string, PyObj>) {
    forall k :: k in kwds ==> exists j :: nargs <= j < |params| && params[j] == k
  }

  /** Every required parameter past the first `nargs` is given by keyword. */
  ghost predicate RequiredGiven(params: seq<string>, required: nat, nargs: nat, kwds: map<string, PyObj>)
    requires required <= |params|
  {
    forall j :: nargs <= j < required ==> params[j] in kwds
  }

  /** Reference binding, as Python binds a call to
      `f(params[0], ..., params[required-1], <optional>...)`: no surplus
      positional argument, every keyword names a parameter not already given
      positionally, and every required parameter is given. */
  ghost function Bind(params: seq<string>, required: nat, args: seq<PyObj>, kwds: map<string, PyObj>): Option<map<string, PyObj>>
    requires required <= |params|
  {
    if |args| <= |params| && KeywordsKnown(params, |args|, kwds) && RequiredGiven(params, required, |args|, kwds)
    then Some(Positional(params, args) + kwds)
    else None
  }

  /** The keyword scan finds every keyword exactly when all keywords name
      parameters past the positional ones. */
  lemma ScanCountsKeywords(params: seq<string>, args: seq<PyObj>, kwds: map<string, PyObj>, bound: map<string, PyObj>)
    requires |args| <= |params|
    requires bound.Keys == Named(params, kwds, |args|)
    ensures bound.Keys <= kwds.Keys
    ensures |bound.Keys| == |kwds| <==> KeywordsKnown(params, |args|, kwds)
    ensures |bound.Keys| == |kwds| ==> bound.Keys == kwds.Keys
  {
    NamedMembers(params, kwds, |args|);
    assert bound.Keys <= kwds.Keys;
    SubsetCard(bound.Keys, kwds.Keys);
    if KeywordsKnown(params, |args|, kwds) {
      KnownAreNamed(params, args, kwds, bound);
    } else {
      UnknownNotNamed(params, args, kwds, bound);
    }
  }

  /** When every keyword is a later parameter, every keyword is bound. */
  lemma KnownAreNamed(params: seq<string>, args: seq<PyObj>, kwds: map<string, PyObj>, bound: map<string, PyObj>)
    requires |args| <= |params| && KeywordsKnown(params, |args|, kwds)
    requires bound.Keys == Named(params, kwds, |args|)
    ensures bound.Keys == kwds.Keys
  {
    NamedMembers(params, kwds, |args|);
    assert kwds.Keys <= bound.Keys;
  }

  /** A keyword that is not a later parameter is left unbound, so fewer
      names are bound than there are keywords. */
  lemma UnknownNotNamed(params: seq<string>, args: seq<PyObj>, kwds: map<string, PyObj>, bound: map<string, PyObj>)
    requires |args| <= |params| && !KeywordsKnown(params, |args|, kwds)
    requires bound.Keys == Named(params, kwds, |args|)
    ensures |bound.Keys| < |kwds|
  {
    NamedMembers(params, kwds, |args|);
    var k :| k in kwds && !exists j :: |args| <= j < |params| && params[j] == k;
    assert k !in bound.Keys;
    assert bound.Keys <= kwds.Keys;
    SubsetCard(bound.Keys, kwds.Keys);
    assert bound.Keys != kwds.Keys;
  }

  lemma PositionalCallMatchesBind(params: seq<string>, required: nat, args: seq<PyObj>, kwds: map<string, PyObj>)
    requires WellFormedParams(params, required)
    requires |kwds| == 0
    ensures CParse(params, required, args, kwds).Success? <==> Bind(params, required, args, kwds).Some?
    ensures CParse(params, required, args, kwds).Success? ==>
              CParse(params, required, args, kwds).value == Bind(params, required, args, kwds).value
  {
    assert kwds == map[];
    if |args| < required {
      assert params[|args|] !in kwds;
    } else if |args| <= |params| {
      assert Positional(params, args) + kwds == Positional(params, args);
    }
  }

  lemma KeywordCallMatchesBind(params: seq<string>, required: nat, args: seq<PyObj>, kwds: map<string, PyObj>)
    requires WellFormedParams(params, required)
    requires |kwds| > 0 && |args| < |params|
    ensures CParse(params, required, args, kwds).Success? <==> Bind(params, required, args, kwds).Some?
    ensures CParse(params, required, args, kwds).Success? ==>
              CParse(params, required, args, kwds).value == Bind(params, required, args, kwds).value
  {
    var scan := KeywordScan(params, required, kwds, |args|);
    ScanSucceeds(params, required, kwds, |args|);
    if scan.Success? {
      ScanBinds(params, required, kwds, |args|);
      ScanCountsKeywords(params, args, kwds, scan.value.bound);
      if scan.value.found == |kwds| {
        assert scan.value.bound == kwds;
      }
    }
  }

  lemma SurplusCallMatchesBind(params: seq<string>, required: nat, args: seq<PyObj>, kwds: map<string, PyObj>)
    requires WellFormedParams(params, required)
    requires |kwds| > 0 && |args| >= |params|
    ensures Bind(params, required, args, kwds).None?
  {
    var k :| k in kwds;
    assert !KeywordsKnown(params, |args|, kwds);
  }

  /** The hand-written parsers bind exactly as Python would: they succeed on
      the same calls and produce the same bindings. */
  lemma ParseMatchesBind(params: seq<string>, required: nat, args: seq<PyObj>, kwds: map<string, PyObj>)
    requires WellFormedParams(params, required)
    ensures CParse(params, required, args, kwds).Success? <==> Bind(params, required, args, kwds).Some?
    ensures CParse(params, required, args, kwds).Success? ==>
              CParse(params, required, args, kwds).value == Bind(params, required, args, kwds).value
  {
    if |kwds| == 0 {
      PositionalCallMatchesBind(params, required, args, kwds);
    } else if |args| < |params| {
      KeywordCallMatchesBind(params, required, args, kwds);
    } else {
      SurplusCallMatchesBind(params, required, args, kwds);
    }
  }

  /** Arity of purely positional calls: 2 or 3 arguments for `partsort`,
      1 or 2 for `rankdata`, 1 to 3 for `push`. */
  lemma PositionalArity(args: seq<PyObj>)
    ensures Parse(PartSort, args, map[]).Success? <==> 2 <= |args| <= 3
    ensures Parse(RankData, args, map[]).Success? <==> 1 <= |args| <= 2
    ensures Parse(Push, args, map[]).Success? <==> 1 <= |args| <= 3
  {
  }

  // ---------------------------------------------------------------------
  // Axis and `n`.

  /** The axis a kernel runs along, and whether the array is flattened to
      one dimension first. */
  datatype AxisChoice = AxisChoice(axis: nat, ravel: bool)

  /** How `nonreducer_axis` interprets the `axis` argument of an array with
      `ndim` dimensions (`None` in `axisObj` means the argument was not
      given). */
  function NormalizeAxis(kind: Kind, axisObj: Option<PyObj>, ndim: nat): (r: Result<AxisChoice, CallError>)
    ensures r.Success? && !r.value.ravel ==> r.value.axis < ndim
    ensures r.Success? && r.value.ravel ==> r.value.axis == 0 && kind != Push
  {
    if axisObj.None? then
      if kind == PartSort || kind == Push then
        if ndim == 0 then Failure(AxisOutOfBounds(-1)) else Success(AxisChoice(ndim - 1, false))
      else if ndim != 1 then Success(AxisChoice(0, true))
      else Success(AxisChoice(0, false))
    else if axisObj.value.NoneObj? then
      if kind == Push then Failure(AxisIsNone)
      else if ndim != 1 then Success(AxisChoice(0, true))
      else Success(AxisChoice(0, false))
    else if AsCInt(axisObj.value).None? then Failure(AxisNotInteger)
    else
      var v := AsCInt(axisObj.value).value;
      if v < 0 then
        if v + ndim < 0 then Failure(AxisOutOfBounds(v + ndim)) else Success(AxisChoice(v + ndim, false))
      else if v >= ndim then Failure(AxisOutOfBounds(v))
      else Success(AxisChoice(v, false))
  }

  /** An integer axis is accepted exactly when it lies in `[-ndim, ndim)`,
      and then denotes the same dimension Python indexing would. */
  lemma IntegerAxis(kind: Kind, v: int, ndim: nat)
    requires INT_MIN <= v <= INT_MAX
    ensures NormalizeAxis(kind, Some(IntObj(v)), ndim).Success? <==> -(ndim as int) <= v < ndim
    ensures NormalizeAxis(kind, Some(IntObj(v)), ndim).Success? ==>
              NormalizeAxis(kind, Some(IntObj(v)), ndim).value == AxisChoice(v % ndim, false)
  {
  }

  /** A missing axis means the last one for `partsort` and `push` and the
      flattened array for `rankdata`; `None` flattens, except for `push`. */
  lemma DefaultAxis(kind: Kind, ndim: nat)
    ensures kind != RankData ==>
              (NormalizeAxis(kind, None, ndim).Success? <==> ndim >= 1)
    ensures kind != RankData && ndim >= 1 ==>
              NormalizeAxis(kind, None, ndim).value == AxisChoice(ndim - 1, false)
    ensures kind == RankData ==>
              NormalizeAxis(kind, None, ndim) == NormalizeAxis(kind, Some(NoneObj), ndim)
    ensures kind == RankData ==>
              NormalizeAxis(kind, None, ndim).Success? && NormalizeAxis(kind, None, ndim).value.axis == 0
    ensures NormalizeAxis(kind, Some(NoneObj), ndim).Failure? <==> kind == Push
  {
  }

  /** `push` only reaches its kernel with an array of at least one
      dimension, so the kernel's zero-dimension guard never fires. */
  lemma PushHasDimension(axisObj: Option<PyObj>, ndim: nat)
    requires NormalizeAxis(Push, axisObj, ndim).Success?
    ensures ndim >= 1
  {
  }

  /** How `nonreducer_axis` interprets the `n` argument: `-1` when absent. */
  function NormalizeN(kind: Kind, nObj: Option<PyObj>): (r: Result<int, CallError>)
    ensures r.Success? ==> INT_MIN <= r.value <= INT_MAX
    ensures nObj.None? ==> r == Success(-1)
    ensures nObj.Some? ==> (r.Success? <==> AsCInt(nObj.value).Some? && (kind == Push ==> nObj.value.i >= 0))
    ensures nObj.Some? && r.Success? ==> r.value == nObj.value.i
  {
    match nObj
    case None => Success(-1)
    case Some(o) =>
      var converted := AsCInt(o);
      if converted.None? then Failure(NNotInteger)
      else if converted.value < 0 && kind == Push then Failure(NNegative)
      else Success(converted.value)
  }

  /** For `push`, a negative `n` reaches the kernel exactly when `n` was not
      given, so the kernel reads a negative `n` as "no limit". */
  lemma PushUnlimitedIffMissing(nObj: Option<PyObj>)
    requires NormalizeN(Push, nObj).Success?
    ensures NormalizeN(Push, nObj).value < 0 <==> nObj.None?
  {
  }

  /** What a kernel is called with. */
  datatype KernelCall = KernelCall(axis: nat, ravel: bool, n: int)

  function Lookup(m: map<string, PyObj>, name: string): Option<PyObj> {
    if name in m then Some(m[name]) else None
  }

  /** `nonreducer_axis` up to the dtype dispatch: parse, then axis, then
      `n`, each failing with the first error met. */
  function NonreducerAxis(kind: Kind, args: seq<PyObj>, kwds: map<string, PyObj>, ndim: nat): (r: Result<KernelCall, CallError>)
    ensures r.Success? <==>
              && Parse(kind, args, kwds).Success?
              && NormalizeAxis(kind, Lookup(Parse(kind, args, kwds).value, "axis"), ndim).Success?
              && NormalizeN(kind, Lookup(Parse(kind, args, kwds).value, "n")).Success?
    ensures r.Success? && !r.value.ravel ==> r.value.axis < ndim
    ensures r.Success? && kind == RankData ==> r.value.n == -1
  {
    var parsed := Parse(kind, args, kwds);
    if parsed.Failure? then Failure(BadArguments(parsed.error))
    else
      ParsedNames(kind, args, kwds);
      var choice := NormalizeAxis(kind, Lookup(parsed.value, "axis"), ndim);
      if choice.Failure? then Failure(choice.error)
      else
        var n := NormalizeN(kind, Lookup(parsed.value, "n"));
        if n.Failure? then Failure(n.error)
        else Success(KernelCall(choice.value.axis, choice.value.ravel, n.value))
  }
}
