/** `PathInfo` as an object: parsing, the setters, the queries and the JSP lookup. */
module PathInfos {
  import opened Options
  import opened Seqs
  import opened JavaStrings
  import opened Paths

  class PathInfo {
    const currentSite: string
    const guiPath: string
    const servicePath: string
    const extension: string
    const servletPath: string

    var pathElements: seq<string>
    var rootPath: string
    var siteIdx: int
    var applicationIdx: int
    var pageIdx: int
    var applicationName: Option<string>
    var page: Option<string>
    var jspUrlParams: Option<seq<string>>

    constructor (currentSite: string, servletPath: string, guiPath: string, servicePath: string, extension: string)
      requires guiPath != "" && servicePath != ""
      ensures this.currentSite == currentSite && this.servletPath == servletPath && this.extension == extension
      ensures this.guiPath == guiPath && this.servicePath == servicePath
      ensures pathElements == SplitPath(servletPath) && Positions() == NOWHERE
      ensures applicationName == None && page == None && jspUrlParams == None
    {
      this.currentSite, this.servletPath, this.guiPath := currentSite, servletPath, guiPath;
      this.servicePath, this.extension := servicePath, extension;
      pathElements, rootPath := SplitPath(servletPath), servletPath;
      siteIdx, applicationIdx, pageIdx := -1, -1, -1;
      applicationName, page, jspUrlParams := None, None, None;
    }

    function Positions(): Indices
      reads this
    {
      Indices(siteIdx, applicationIdx, pageIdx)
    }

    predicate HasPaths()
    {
      guiPath != "" && servicePath != ""
    }

    predicate IsGui()
      requires HasPaths()
      reads this
    {
      IsAt1(pathElements, guiPath[1..])
    }

    predicate IsService()
      requires HasPaths()
      reads this
    {
      IsAt1(pathElements, servicePath[1..])
    }

    /**
     `parse` behind the splitting of the path; `thrown` where it runs out of elements, which is on paths that end with a
     single output prefix.
     */
    method ParsePath() returns (thrown: bool)
      requires HasPaths() && pathElements == SplitPath(servletPath) && Positions() == NOWHERE
      requires applicationName == None && page == None
      modifies `rootPath, `siteIdx, `applicationIdx, `pageIdx
      ensures thrown <==>
                && IsGui() && |pathElements| == IndexIn(pathElements, guiPath[1..]) + 2
                && IsPrefix(pathElements[|pathElements| - 1])
      ensures !thrown ==> Parsed() && Agreeing()
    {
      RunsOutIff(pathElements, guiPath[1..], servicePath[1..]);
      rootPath := if HasElementAt(pathElements, 1) then SLASH + pathElements[1] else servletPath;
      if IsGui() {
        thrown := ParseGuiPath();
      } else {
        thrown := false;
        if IsService() {
          ParseServicePath();
        }
      }
    }

    /** The branch of `parse` for the GUI. */
    method ParseGuiPath() returns (thrown: bool)
      requires HasPaths() && Positions() == NOWHERE
      modifies `siteIdx, `applicationIdx, `pageIdx
      ensures ParseGui(pathElements, guiPath[1..]).None? <==> thrown
      ensures !thrown ==> ParseGui(pathElements, guiPath[1..]) == Some(Positions())
    {
      var idx := IndexIn(pathElements, guiPath[1..]);
      if HasElementAt(pathElements, idx) && HasElementAt(pathElements, idx + 1) {
        siteIdx := idx + 1;
        if IsPrefix(pathElements[siteIdx]) {
          siteIdx := siteIdx + 1;
          if siteIdx >= |pathElements| {
            return true;
          }
          if IsPrefix(pathElements[siteIdx]) {
            siteIdx := siteIdx + 1;
          }
        }
        if HasElementAt(pathElements, siteIdx + 1) {
          applicationIdx := siteIdx + 1;
          if HasElementAt(pathElements, applicationIdx + 1) {
            pageIdx := applicationIdx + 1;
          }
        }
      }
      return false;
    }

    /** The branch of `parse` for services. */
    method ParseServicePath()
      requires HasPaths() && Positions() == NOWHERE
      modifies `siteIdx, `applicationIdx
      ensures Positions() == ParseService(pathElements, servicePath[1..])
    {
      var idx := IndexIn(pathElements, servicePath[1..]);
      if HasElementAt(pathElements, idx + 1) {
        siteIdx := idx + 1;
      }
      if HasElementAt(pathElements, idx + 2) {
        applicationIdx := idx + 2;
      }
    }

    /** `setApplicationName` */
    method SetApplicationName(application: Option<string>)
      modifies `applicationName, `applicationIdx, `pageIdx
      ensures applicationName == application && pageIdx == -1
      ensures applicationIdx == if application.Some? then IndexIn(pathElements, application.value) else -1
      ensures ApplicationName() == application
      ensures old(Agreeing()) ==> Agreeing()
    {
      applicationName := application;
      applicationIdx := if application.Some? then IndexIn(pathElements, application.value) else -1;
      pageIdx := -1;
    }

    /** `setPage` */
    method SetPage(page: Option<string>)
      modifies `page, `pageIdx
      ensures this.page == page && pageIdx == if page.Some? then IndexIn(pathElements, page.value) else -1
      ensures PageName() == page
      ensures old(Agreeing()) ==> Agreeing()
    {
      this.page := page;
      pageIdx := if page.Some? then IndexIn(pathElements, page.value) else -1;
    }

    // ---------- queries ----------

    function SiteName(): string
      reads this
    {
      if HasElementAt(pathElements, siteIdx) then pathElements[siteIdx] else currentSite
    }

    function ApplicationName(): Option<string>
      reads this
    {
      if applicationName.Some? then applicationName
      else if HasElementAt(pathElements, applicationIdx) then Some(pathElements[applicationIdx])
      else None
    }

    function PageName(): Option<string>
      reads this
    {
      if page.None? && HasElementAt(pathElements, pageIdx) then Some(pathElements[pageIdx]) else page
    }

    /** `getApplicationUrlParameters` */
    function UrlParameters(): seq<string>
      requires HasPaths()
      reads this
    {
      if IsGui() then
        if HasElementAt(pathElements, pageIdx) && HasElementAt(pathElements, pageIdx + 1) then pathElements[pageIdx + 1..]
        else []
      else if IsService() && HasElementAt(pathElements, applicationIdx) && HasElementAt(pathElements, applicationIdx + 3) then
        pathElements[applicationIdx + 3..]
      else []
    }

    /** `getOutputPrefix`, with the first character of each prefix element replaced by an underscore. */
    function OutputPrefix(): string
      requires HasPaths() && siteIdx <= |pathElements|
      requires forall k :: 2 <= k < siteIdx ==> pathElements[k] != ""
      reads this
    {
      if IsGui() then PrefixOf(pathElements, siteIdx) else ""
    }

    /** `isPathSelected` */
    method IsPathSelected(path: string) returns (selected: bool)
      ensures selected <==> SplitPath(path) <= pathElements
    {
      var chunks := SplitPath(path);
      if |pathElements| < |chunks| {
        return false;
      }
      for i := 0 to |chunks|
        invariant forall k :: 0 <= k < i ==> chunks[k] == pathElements[k]
      {
        if chunks[i] != pathElements[i] {
          return false;
        }
      }
      return true;
    }

    /** `initJspUrlParameters`, against any set of existing files. */
    method InitJspUrlParameters(isFile: string -> bool) returns (realServletPath: string)
      modifies `jspUrlParams
      ensures realServletPath == JspPath(servletPath, extension, isFile).0
      ensures jspUrlParams == JspPath(servletPath, extension, isFile).1.OrElse(old(jspUrlParams))
    {
      realServletPath := servletPath;
      var segments := Split(servletPath, SLASH);
      var i := 1;
      while i <= |segments|
        invariant 1 <= i <= |segments| + 1
        invariant FirstJsp(segments, 1, extension, isFile) == FirstJsp(segments, i, extension, isFile)
        invariant realServletPath == if i == 1 then servletPath else SegmentsUpTo(segments, i - 1)
        invariant jspUrlParams == old(jspUrlParams)
        decreases |segments| - i
      {
        realServletPath := SegmentsUpTo(segments, i);
        if isFile(realServletPath + "." + extension) {
          jspUrlParams := Some(segments[i..]);
          realServletPath := realServletPath + "." + extension;
          return;
        }
        i := i + 1;
      }
    }

    // ---------- what the queries say ----------

    /** The positions are those of the application and the page the queries return. */
    ghost predicate Agreeing()
      reads this
    {
      && (HasElementAt(pathElements, applicationIdx) ==> ApplicationName() == Some(pathElements[applicationIdx]))
      && (HasElementAt(pathElements, pageIdx) ==> PageName() == Some(pathElements[pageIdx]))
    }

    /** Freshly parsed, and not yet changed by a setter. */
    ghost predicate Parsed()
      reads this
    {
      && HasPaths() && pathElements == SplitPath(servletPath)
      && Parse(pathElements, guiPath[1..], servicePath[1..]) == Some(Positions())
      && rootPath == (if |pathElements| > 1 then SLASH + pathElements[1] else servletPath)
      && applicationName == None && page == None
    }

    /**
     On GUI paths the URL params are what follows the page that the queries name: in every state that parsing and
     the setters lead to, the path ends with page and params, or there are no params.
     */
    lemma UrlParametersFollowPage()
      requires Agreeing() && HasPaths() && IsGui() && UrlParameters() != []
      ensures PageName().Some? && 0 <= pageIdx
      ensures pathElements == pathElements[..pageIdx] + [PageName().value] + UrlParameters()
    {
    }

    /** In any state a name that was set counts before the one in the path. */
    lemma SetNamesCount()
      ensures applicationName.Some? ==> ApplicationName() == applicationName
      ensures page.Some? ==> PageName() == page
    {
    }

    /** In any state the URL params are the end of the path. */
    lemma UrlParametersAreSuffix()
      requires HasPaths()
      ensures |UrlParameters()| <= |pathElements|
      ensures UrlParameters() == pathElements[|pathElements| - |UrlParameters()|..]
    {
    }

    lemma EmptyTail(elements: seq<string>, i: int)
      requires HasElementAt(elements, i)
      ensures !HasElementAt(elements, i + 1) ==> elements[i + 1..] == []
    {
    }

    /** Behind a parsed GUI path there are site, application and page, with prefixes before them. */
    lemma ParsedGuiPath()
      requires Parsed() && IsGui() && |guiPath| > 1 && StartsWith(servletPath, SLASH)
      requires HasElementAt(pathElements, pageIdx)
      ensures 2 <= siteIdx <= 4 && applicationIdx == siteIdx + 1 && pageIdx == siteIdx + 2
      ensures GuiPath(pathElements, guiPath[1..], pathElements[2..siteIdx], SiteName(), pathElements[applicationIdx],
                      pathElements[pageIdx], UrlParameters())
      ensures forall k :: 2 <= k < siteIdx ==> pathElements[k] != ""
      ensures OutputPrefix() == Slashed(pathElements[2..siteIdx])
    {
      FirstIsEmpty(servletPath);
      ParsedIsGuiPath(pathElements, guiPath[1..]);
      PrefixOfIsSlashed(pathElements, siteIdx);
      EmptyTail(pathElements, pageIdx);
    }

    /**
     On service paths behind the service's name stand site and application, and the URL params begin two elements behind
     the application, if there are three.
     */
    lemma ParsedServicePath(rest: seq<string>)
      requires Parsed() && |servicePath| > 1 && pathElements == ["", servicePath[1..]] + rest
      requires servicePath[1..] != guiPath[1..]
      ensures SiteName() == if |rest| > 0 then rest[0] else currentSite
      ensures ApplicationName() == if |rest| > 1 then Some(rest[1]) else None
      ensures PageName() == None && OutputPrefix() == ""
      ensures UrlParameters() == if |rest| > 4 then rest[4..] else []
    {
      ServicePathIsParsed(pathElements, servicePath[1..], rest);
    }

    /**
     Printing back: root path, output prefix, site, application, page and URL params rejoin to the elements of the
     path, hence to the path itself if it ends neither with a slash nor with an anchor.
     */
    lemma GuiRoundTrip()
      requires Parsed() && IsGui() && |guiPath| > 1 && StartsWith(servletPath, SLASH)
      requires HasElementAt(pathElements, pageIdx)
      ensures siteIdx <= |pathElements| && forall k :: 2 <= k < siteIdx ==> pathElements[k] != ""
      ensures ApplicationName().Some? && PageName().Some?
      ensures var printed := rootPath + OutputPrefix() + SLASH + SiteName() + SLASH + ApplicationName().value
                             + SLASH + PageName().value + Slashed(UrlParameters());
              && printed == Join(pathElements, SLASH)
              && (printed == servletPath <==> !EndsWith(servletPath, SLASH) && !Anchored(servletPath))
    {
      FirstIsEmpty(servletPath);
      ElementsRejoin(servletPath);
      JoinIsSlashed(pathElements);
      ParsedGuiPath();
      GuiPathPrinted(pathElements, guiPath[1..], pathElements[2..siteIdx], SiteName(), pathElements[applicationIdx],
                     pathElements[pageIdx], UrlParameters());
      Empty(Slashed(pathElements[1..]));
    }
  }
}
