/** The site selector's pure rules (`internal/ui/sites.go`): which
    entries of the websites root are sites and in what order, what tapping
    a site selects, and when the new-site form starts a clone. Creating
    directories and cloning enter as outcomes the caller supplies. */
module Sites {
  import opened Wrappers
  import opened Collections
  import opened Paths

  /** A site is a directory whose name is not hidden. */
  predicate IsSite(e: Entry) {
    e.isDir && !IsHidden(e.name)
  }

  /** `refreshSites`' filter and order: the sites, sorted by name. */
  function SiteListing(entries: seq<Entry>): (sites: seq<Entry>)
    ensures forall e :: multiset(sites)[e] == if IsSite(e) then multiset(entries)[e] else 0
    ensures forall e :: e in sites <==> e in entries && IsSite(e)
    ensures SortedBy(sites, NameOf)
  {
    var sites := SortBy(Filter(entries, IsSite), NameOf);
    forall e
      ensures e in sites <==> e in entries && IsSite(e)
    {
      assert e in sites <==> multiset(sites)[e] > 0;
      assert e in entries <==> multiset(entries)[e] > 0;
    }
    sites
  }

  /** The selector's state: the websites root and the sites listed. */
  datatype SiteSelector = SiteSelector(root: Path, sites: seq<Entry>)

  /** `refreshSites`: re-list the root; a failed read keeps the old list. */
  function RefreshSites(s: SiteSelector, fs: FileSystem): (r: SiteSelector)
    ensures r.root == s.root
    ensures fs(s.root).None? ==> r == s
    ensures fs(s.root).Some? ==> r.sites == SiteListing(fs(s.root).value)
  {
    match fs(s.root)
    case None => s
    case Some(entries) => s.(sites := SiteListing(entries))
  }

  /** `NewSiteSelector`: an empty list, then the first refresh. */
  function NewSiteSelector(root: Path, fs: FileSystem): (s: SiteSelector)
    ensures s.root == root
    ensures fs(root).None? ==> s.sites == []
    ensures fs(root).Some? ==> s.sites == SiteListing(fs(root).value)
  {
    RefreshSites(SiteSelector(root, []), fs)
  }

  /** `onSiteTapped`: an index past the list selects nothing, otherwise the
      site's directory under the root is selected. */
  function OnSiteTapped(s: SiteSelector, id: nat): (r: Option<Path>)
    ensures r.None? <==> id >= |s.sites|
    ensures r.Some? ==> Dir(r.value) == s.root && Base(r.value) == s.sites[id].name
  {
    if id >= |s.sites| then None else Some(JoinPath(s.root, s.sites[id].name))
  }

  /** Every listed site is selectable, and tapping it selects a directory
      of the websites root that the file system listed as a site. */
  lemma TappedSiteIsListedSite(s: SiteSelector, fs: FileSystem, id: nat)
    requires fs(s.root).Some?
    requires id < |RefreshSites(s, fs).sites|
    ensures var p := OnSiteTapped(RefreshSites(s, fs), id);
      p.Some? && Dir(p.value) == s.root
      && Entry(Base(p.value), true) in fs(s.root).value
      && !IsHidden(Base(p.value))
  {
    var r := RefreshSites(s, fs);
    var e := r.sites[id];
    assert e in r.sites;
    assert e == Entry(e.name, true);
  }

  /** What the new-site form asks for: the site directory to create and
      the repository to clone into it. */
  datatype CloneRequest = CloneRequest(site: Path, repoUrl: string)

  /** The new-site form's guard: a confirmed form with "Clone" checked and
      both a name and a repository URL starts a clone into the named
      directory under the root; anything else does nothing. */
  function NewSiteRequest(s: SiteSelector, ok: bool, clone: bool, name: string, repoUrl: string)
    : (r: Option<CloneRequest>)
    ensures r.Some? <==> ok && clone && name != "" && repoUrl != ""
    ensures r.Some? ==> r.value.repoUrl == repoUrl && Dir(r.value.site) == s.root
                        && Base(r.value.site) == name
  {
    if !ok then None
    else if !clone then None
    else if name == "" || repoUrl == "" then None
    else Some(CloneRequest(JoinPath(s.root, name), repoUrl))
  }

  /** The directory the clone callback creates inside a cloned site. */
  const ContentDir: string := "content"

  /** The end of a clone request: creating the site directory or cloning
      may fail with an error shown to the user; on success a "content"
      directory is created inside the site and the list is refreshed with
      the file system as it is afterwards. */
  function FinishClone(s: SiteSelector, req: CloneRequest, mkdir: Option<string>,
                       cloned: Option<string>, after: FileSystem)
    : (r: Result<(SiteSelector, Path), string>)
    ensures mkdir.Some? ==> r == Failure(mkdir.value)
    ensures mkdir.None? && cloned.Some? ==> r == Failure(cloned.value)
    ensures r.Success? ==> mkdir.None? && cloned.None?
    ensures r.Success? ==> r.value.0 == RefreshSites(s, after)
                           && Dir(r.value.1) == req.site && Base(r.value.1) == ContentDir
  {
    if mkdir.Some? then Failure(mkdir.value)
    else if cloned.Some? then Failure(cloned.value)
    else Success((RefreshSites(s, after), JoinPath(req.site, ContentDir)))
  }

  /** A newly cloned site whose name is not hidden is listed after the
      refresh, and tapping it selects the directory the request named. */
  lemma {:induction false} ClonedSiteIsSelectable(s: SiteSelector, name: string, repoUrl: string,
                                                  after: FileSystem)
    requires name != "" && repoUrl != "" && !IsHidden(name)
    requires after(s.root).Some? && Entry(name, true) in after(s.root).value
    ensures var req := NewSiteRequest(s, true, true, name, repoUrl).value;
      match FinishClone(s, req, None, None, after)
      case Success(v) =>
        exists id: nat :: id < |v.0.sites| && OnSiteTapped(v.0, id) == Some(req.site)
      case Failure(_) => false
  {
    var req := NewSiteRequest(s, true, true, name, repoUrl).value;
    var r := RefreshSites(s, after);
    var site := Entry(name, true);
    assert IsSite(site);
    assert site in r.sites;
    var id: nat :| id < |r.sites| && r.sites[id] == site;
    assert OnSiteTapped(r, id) == Some(req.site);
  }
}
