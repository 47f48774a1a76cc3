/** `addPullRequestDefaults`: the user's pull-request options with every
    optional field filled in. */
module PullRequestDefaults {
  import opened Wrappers

  const DefaultBranchName: string := "code-suggestions"
  const DefaultPrimaryBranch: string := "master"

  /** The options a user supplies; `None` is a field left out. */
  datatype UserOptions = UserOptions(
    upstreamOwner: string,
    upstreamRepo: string,
    description: string,
    title: string,
    message: string,
    force: Option<bool>,
    fork: Option<bool>,
    branch: Option<string>,
    primary: Option<string>,
    maintainersCanModify: Option<bool>)

  /** The settings a pull request is created with: every field present. */
  datatype Settings = Settings(
    upstreamOwner: string,
    upstreamRepo: string,
    description: string,
    title: string,
    message: string,
    force: bool,
    fork: bool,
    branch: string,
    primary: string,
    maintainersCanModify: bool)

  /** `addPullRequestDefaults`. `force` is off unless asked for; `fork` and
      `maintainersCanModify` are on unless switched off; `branch` and
      `primary` keep any string given, the empty one included. */
  function AddPullRequestDefaults(options: UserOptions): (s: Settings)
    ensures s.upstreamOwner == options.upstreamOwner && s.upstreamRepo == options.upstreamRepo
    ensures s.description == options.description && s.title == options.title
    ensures s.message == options.message
    ensures s.force <==> options.force == Some(true)
    ensures !s.fork <==> options.fork == Some(false)
    ensures !s.maintainersCanModify <==> options.maintainersCanModify == Some(false)
    ensures options.branch.Some? ==> s.branch == options.branch.value
    ensures options.branch.None? ==> s.branch == DefaultBranchName
    ensures options.primary.Some? ==> s.primary == options.primary.value
    ensures options.primary.None? ==> s.primary == DefaultPrimaryBranch
  {
    Settings(
      options.upstreamOwner,
      options.upstreamRepo,
      options.description,
      options.title,
      options.message,
      options.force.GetOr(false),
      if options.fork == Some(false) then false else true,
      options.branch.GetOr(DefaultBranchName),
      options.primary.GetOr(DefaultPrimaryBranch),
      if options.maintainersCanModify == Some(false) then false else true)
  }

  /** Settings given back as options with every field supplied. */
  function AsOptions(s: Settings): (o: UserOptions)
    ensures o.force.Some? && o.fork.Some? && o.branch.Some? && o.primary.Some? && o.maintainersCanModify.Some?
  {
    UserOptions(s.upstreamOwner, s.upstreamRepo, s.description, s.title, s.message,
                Some(s.force), Some(s.fork), Some(s.branch), Some(s.primary), Some(s.maintainersCanModify))
  }

  /** Options with every field supplied are used as they are. */
  lemma AllSuppliedKept(s: Settings)
    ensures AddPullRequestDefaults(AsOptions(s)) == s
  {
  }

  /** The settings are all there is to fully supplied options: such options
      are the settings they produce, given back. */
  lemma FullySuppliedRoundTrip(o: UserOptions)
    requires o.force.Some? && o.fork.Some? && o.branch.Some? && o.primary.Some? && o.maintainersCanModify.Some?
    ensures AsOptions(AddPullRequestDefaults(o)) == o
  {
    var s := AddPullRequestDefaults(o);
    assert Some(s.fork) == o.fork by {
      if o.fork.value { assert s.fork; } else { assert !s.fork; }
    }
    assert Some(s.maintainersCanModify) == o.maintainersCanModify by {
      if o.maintainersCanModify.value { assert s.maintainersCanModify; } else { assert !s.maintainersCanModify; }
    }
  }

  /** Defaulting already-defaulted settings changes nothing. */
  lemma DefaultsIdempotent(o: UserOptions)
    ensures var s := AddPullRequestDefaults(o);
      AddPullRequestDefaults(AsOptions(s)) == s
  {
    AllSuppliedKept(AddPullRequestDefaults(o));
  }

  /** Options naming only the repository, description, title and message
      get every default. */
  lemma UpstreamOnlyExample()
    ensures AddPullRequestDefaults(UserOptions("owner", "repo", "custom description", "chore: custom title",
                                               "chore: custom description", None, None, None, None, None))
         == Settings("owner", "repo", "custom description", "chore: custom title", "chore: custom description",
                     false, true, "code-suggestions", "master", true)
  {
  }
}
