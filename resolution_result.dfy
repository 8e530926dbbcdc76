/** `ResolutionResult`: where a dependency was found. All fields are fixed at construction
    except `checked`, which only `setChecked` changes and only to true. */
module Results {
  import opened Wrappers
  import opened Dependencies

  /** `checksumUrl` is the one optional checksum location the callers read; an aggregator
      (a POM-only artifact) has no `dependencyUrl`. */
  datatype ResolutionResult = ResolutionResult(
    repository: Repository,
    dependencyUrl: Option<Url>,
    checksumUrl: Option<Url>,
    isAggregator: bool,
    checked: bool)

  /** The constructor's invariant: a non-aggregator result has a dependency URL. */
  predicate Consistent(r: ResolutionResult)
  {
    r.isAggregator || r.dependencyUrl.Some?
  }

  /** A result that the caching resolver may hand out without pinging again. */
  predicate CheckedOrAggregator(r: ResolutionResult)
  {
    r.checked || r.isAggregator
  }

  /** The constructor: `None` where `Objects.requireNonNull` throws because a
      non-aggregator result is given no URL; otherwise the getters return exactly the
      arguments. */
  function Create(
    repository: Repository,
    dependencyUrl: Option<Url>,
    checksumUrl: Option<Url>,
    isAggregator: bool,
    checked: bool
  ): (r: Option<ResolutionResult>)
    ensures r.None? <==> !isAggregator && dependencyUrl.None?
    ensures r.Some? ==> Consistent(r.value)
    ensures r.Some? ==> (r.value.repository == repository && r.value.dependencyUrl == dependencyUrl
      && r.value.checksumUrl == checksumUrl && r.value.isAggregator == isAggregator
      && r.value.checked == checked)
  {
    if !isAggregator && dependencyUrl.None? then None
    else Some(ResolutionResult(repository, dependencyUrl, checksumUrl, isAggregator, checked))
  }

  /** `setChecked()`: the same result with `checked` raised. */
  function SetChecked(r: ResolutionResult): (s: ResolutionResult)
    ensures s.checked && CheckedOrAggregator(s)
    ensures s.repository == r.repository && s.dependencyUrl == r.dependencyUrl
      && s.checksumUrl == r.checksumUrl && s.isAggregator == r.isAggregator
    ensures Consistent(r) ==> Consistent(s)
  {
    r.(checked := true)
  }

  /** Raising `checked` on a checked result, or twice, changes nothing: the bit only moves
      from false to true. */
  lemma SetCheckedStable(r: ResolutionResult)
    ensures SetChecked(SetChecked(r)) == SetChecked(r)
    ensures r.checked ==> SetChecked(r) == r
  {
  }
}
