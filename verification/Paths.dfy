/**
 Request paths as values: how `PathInfo` splits a path into elements, finds site, application and page
 among them, and looks for the JSP a path starts with.
 */
module Paths {
  import opened Options
  import opened Seqs
  import opened JavaStrings

  const SLASH := "/"

  // ---------- elements ----------

  /** The index of an anchor in an element, if there is one behind its first character. */
  function AnchorIn(element: string): Option<nat>
  {
    match IndexOf(element, "#", 0)
    case None => None
    case Some(i) => if i > 0 then Some(i) else None
  }

  /** `splitPath` */
  function SplitPath(path: string): seq<string>
  {
    var elements := Split(path, SLASH);
    if elements == [] then []
    else
      var init, last := elements[..|elements| - 1], elements[|elements| - 1];
      match AnchorIn(last)
      case None => elements
      case Some(i) => init + [last[..i]]
  }

  /** Of the last element what is behind the first `#` is cut off with it, unless it starts with it. */
  lemma AnchorIsCut(path: string, k: nat)
    requires var elements := Split(path, SLASH);
             && elements != []
             && var last := elements[|elements| - 1];
             k <= |last| && (forall m :: 0 <= m < k ==> last[m] != '#') && (k < |last| ==> last[k] == '#')
    ensures var elements := Split(path, SLASH);
            var init, last := elements[..|elements| - 1], elements[|elements| - 1];
            SplitPath(path) == if 0 < k < |last| then init + [last[..k]] else elements
  {
    AnchorAt(Split(path, SLASH)[|Split(path, SLASH)| - 1], k);
  }

  lemma AnchorAt(element: string, k: nat)
    requires k <= |element| && (forall m :: 0 <= m < k ==> element[m] != '#') && (k < |element| ==> element[k] == '#')
    ensures AnchorIn(element) == if 0 < k < |element| then Some(k) else None
  {
    forall m | 0 <= m < |element|
      ensures OccursAt(element, "#", m) <==> element[m] == '#'
    {
      OccursAtChar(element, "#", m);
    }
    IndexOfFirst(element, "#", 0);
    if k < |element| {
      FirstMatch(element, "#", 0, k);
    }
  }

  predicate HasElementAt(elements: seq<string>, i: int)
  {
    0 <= i < |elements|
  }

  /** `List.indexOf` */
  function IndexIn(elements: seq<string>, element: string): (r: int)
    ensures r == -1 <==> element !in elements
    ensures r != -1 ==> HasElementAt(elements, r) && elements[r] == element && element !in elements[..r]
  {
    if elements == [] then -1
    else if elements[0] == element then 0
    else
      var r := IndexIn(elements[1..], element);
      if r == -1 then -1
      else
        TakeCons(elements, r + 1);
        r + 1
  }

  /** Each element behind a slash. */
  function Slashed(elements: seq<string>): string
  {
    if elements == [] then "" else SLASH + elements[0] + Slashed(elements[1..])
  }

  lemma {:induction false} SlashedConcat(a: seq<string>, b: seq<string>)
    ensures Slashed(a + b) == Slashed(a) + Slashed(b)
  {
    if a == [] {
      Empty(b);
      Empty(Slashed(b));
    } else {
      ConsConcat(a, b);
      SlashedConcat(a[1..], b);
      Assoc(SLASH + a[0], Slashed(a[1..]), Slashed(b));
    }
  }

  /** The elements of a path that starts with a slash rejoin to slashed elements. */
  lemma {:induction false} JoinIsSlashed(elements: seq<string>)
    requires elements != []
    ensures Join(elements, SLASH) == elements[0] + Slashed(elements[1..])
  {
    if |elements| == 1 {
      Empty(elements[0]);
    } else {
      JoinIsSlashed(elements[1..]);
      Assoc(elements[0], SLASH, Join(elements[1..], SLASH));
      Assoc(SLASH, elements[1], Slashed(elements[2..]));
      assert elements[1..][1..] == elements[2..];
    }
  }

  // ---------- site, application and page ----------

  /** The positions of site, application and page, -1 where there is none. */
  datatype Indices = Indices(site: int, application: int, page: int)

  const NOWHERE := Indices(-1, -1, -1)

  predicate IsPrefix(element: string)
  {
    StartsWith(element, "_")
  }

  /** The site's position: behind up to two output prefixes, of which the first needs an element behind it. */
  function SitePosition(elements: seq<string>, first: nat): Option<nat>
    requires first < |elements|
  {
    if !IsPrefix(elements[first]) then Some(first)
    else if first + 1 >= |elements| then None
    else if !IsPrefix(elements[first + 1]) then Some(first + 1)
    else Some(first + 2)
  }

  /** The branch of `parse` for the GUI; `None` where it runs out of elements and throws. */
  function ParseGui(elements: seq<string>, guiName: string): Option<Indices>
  {
    var i := IndexIn(elements, guiName);
    if !HasElementAt(elements, i) || !HasElementAt(elements, i + 1) then Some(NOWHERE)
    else
      match SitePosition(elements, i + 1)
      case None => None
      case Some(site) =>
        Some(Indices(site, if HasElementAt(elements, site + 1) then site + 1 else -1,
                     if HasElementAt(elements, site + 2) then site + 2 else -1))
  }

  /** The branch of `parse` for services. */
  function ParseService(elements: seq<string>, serviceName: string): Indices
  {
    var i := IndexIn(elements, serviceName);
    Indices(if HasElementAt(elements, i + 1) then i + 1 else -1, if HasElementAt(elements, i + 2) then i + 2 else -1, -1)
  }

  predicate IsAt1(elements: seq<string>, name: string)
  {
    |elements| > 1 && elements[1] == name
  }

  function Parse(elements: seq<string>, guiName: string, serviceName: string): Option<Indices>
  {
    if IsAt1(elements, guiName) then ParseGui(elements, guiName)
    else if IsAt1(elements, serviceName) then Some(ParseService(elements, serviceName))
    else Some(NOWHERE)
  }

  /**
   Parsing runs out of elements exactly on GUI paths that end with a single prefix behind the GUI's name, like
   `/manager/_x`.
   */
  lemma RunsOutIff(elements: seq<string>, guiName: string, serviceName: string)
    ensures Parse(elements, guiName, serviceName).None?
       <==> && IsAt1(elements, guiName)
            && |elements| == IndexIn(elements, guiName) + 2 && IsPrefix(elements[|elements| - 1])
    ensures |elements| > 1 && elements[0] == "" != guiName ==>
              (Parse(elements, guiName, serviceName).None?
               <==> |elements| == 3 && elements[1] == guiName && IsPrefix(elements[2]))
  {
    if IsAt1(elements, guiName) {
      IndexOfSecond(elements);
    }
  }

  lemma IndexOfSecond(elements: seq<string>)
    requires |elements| > 1
    ensures IndexIn(elements, elements[1]) == if elements[0] == elements[1] then 0 else 1
  {
    assert elements[1..][0] == elements[1];
  }

  /**
   The grammar of GUI paths: behind the GUI's name up to two prefixes, then site, application and page, then
   the URL params. The site may only start like a prefix if there are two prefixes already.
   */
  ghost predicate GuiPath(elements: seq<string>, guiName: string, prefixes: seq<string>, site: string,
      application: string, page: string, params: seq<string>)
  {
    && elements == ["", guiName] + prefixes + [site, application, page] + params
    && |prefixes| <= 2 && (forall p :: p in prefixes ==> IsPrefix(p))
    && (|prefixes| < 2 ==> !IsPrefix(site))
  }

  /** Whatever has the form of a GUI path is taken apart accordingly. */
  lemma GuiPathIsParsed(elements: seq<string>, guiName: string, prefixes: seq<string>, site: string,
      application: string, page: string, params: seq<string>)
    requires guiName != "" && GuiPath(elements, guiName, prefixes, site, application, page, params)
    ensures var n := |prefixes|;
            && ParseGui(elements, guiName) == Some(Indices(n + 2, n + 3, n + 4))
            && elements[2..n + 2] == prefixes && elements[n + 2..n + 5] == [site, application, page]
            && elements[n + 5..] == params
  {
    var n := |prefixes|;
    assert elements[0] == "" && elements[1] == guiName;
    assert IndexIn(elements, guiName) == 1;
    assert forall k :: 0 <= k < n ==> elements[k + 2] == prefixes[k];
    assert elements[n + 2] == site;
  }

  /** Whatever is parsed down to a page has the form of a GUI path. */
  lemma ParsedIsGuiPath(elements: seq<string>, guiName: string)
    requires guiName != "" && |elements| > 1 && elements[0] == "" && elements[1] == guiName
    requires ParseGui(elements, guiName).Some? && HasElementAt(elements, ParseGui(elements, guiName).value.page)
    ensures var i := ParseGui(elements, guiName).value;
            && 2 <= i.site <= 4 && i.application == i.site + 1 && i.page == i.site + 2
            && GuiPath(elements, guiName, elements[2..i.site], elements[i.site], elements[i.application],
                       elements[i.page], elements[i.page + 1..])
  {
    assert IndexIn(elements, guiName) == 1;
    var s := ParseGui(elements, guiName).value.site;
    assert elements == ["", guiName] + elements[2..s] + [elements[s], elements[s + 1], elements[s + 2]] + elements[s + 3..];
  }

  /** A service path names the service, then the site and the application, as far as there are any. */
  lemma ServicePathIsParsed(elements: seq<string>, serviceName: string, rest: seq<string>)
    requires serviceName != "" && elements == ["", serviceName] + rest
    ensures ParseService(elements, serviceName)
         == Indices(if |rest| > 0 then 2 else -1, if |rest| > 1 then 3 else -1, -1)
  {
    IndexOfSecond(elements);
  }

  lemma SlashedThree(a: string, b: string, c: string)
    ensures Slashed([a, b, c]) == SLASH + a + SLASH + b + SLASH + c
  {
    assert [a, b, c][1..] == [b, c] && [b, c][1..] == [c] && [c][1..] == [];
    assert Slashed([c]) == SLASH + c + "" == SLASH + c;
    assert Slashed([b, c]) == SLASH + b + (SLASH + c) == SLASH + b + SLASH + c;
  }

  /** A GUI path in print. */
  lemma GuiPathPrinted(elements: seq<string>, guiName: string, prefixes: seq<string>, site: string,
      application: string, page: string, params: seq<string>)
    requires GuiPath(elements, guiName, prefixes, site, application, page, params)
    ensures Slashed(elements[1..])
         == SLASH + guiName + Slashed(prefixes) + SLASH + site + SLASH + application + SLASH + page + Slashed(params)
  {
    BehindTheFirst(elements, guiName, prefixes, [site, application, page], params);
    SlashedParts(guiName, prefixes, [site, application, page], params);
    SlashedThree(site, application, page);
    InParts(SLASH + guiName + Slashed(prefixes), site, application, page);
  }

  lemma SlashedParts(guiName: string, prefixes: seq<string>, named: seq<string>, params: seq<string>)
    ensures Slashed([guiName] + prefixes + named + params)
         == SLASH + guiName + Slashed(prefixes) + Slashed(named) + Slashed(params)
  {
    SlashedConcat([guiName] + prefixes + named, params);
    SlashedConcat([guiName] + prefixes, named);
    SlashedConcat([guiName], prefixes);
    SlashedOne(guiName);
  }

  lemma BehindTheFirst(elements: seq<string>, guiName: string, prefixes: seq<string>, named: seq<string>,
      params: seq<string>)
    requires elements == ["", guiName] + prefixes + named + params
    ensures elements[1..] == [guiName] + prefixes + named + params
  {
  }

  lemma SlashedOne(a: string)
    ensures Slashed([a]) == SLASH + a
  {
    assert [a][1..] == [];
    Empty(SLASH + a);
  }

  lemma InParts(x: string, a: string, b: string, c: string)
    ensures x + (SLASH + a + SLASH + b + SLASH + c) == x + SLASH + a + SLASH + b + SLASH + c
  {
    Assoc(x, SLASH + a + SLASH + b + SLASH, c);
    Assoc(x, SLASH + a + SLASH + b, SLASH);
    Assoc(x, SLASH + a + SLASH, b);
    Assoc(x, SLASH + a, SLASH);
    Assoc(x, SLASH, a);
  }

  /** What is printed for the elements before the site: their first characters become underscores. */
  function PrefixOf(elements: seq<string>, site: int): string
    requires site <= |elements| && forall k :: 2 <= k < site ==> elements[k] != ""
  {
    if site - 1 <= 1 then ""
    else
      SLASH + "_" + elements[2][1..] + if site - 1 > 2 then SLASH + "_" + elements[3][1..] else ""
  }

  /** At most two prefixes in print: the underscores are what was there. */
  lemma PrefixOfIsSlashed(elements: seq<string>, site: nat)
    requires 2 <= site <= 4 && site <= |elements| && forall p :: p in elements[2..site] ==> IsPrefix(p)
    ensures forall k :: 2 <= k < site ==> elements[k] != ""
    ensures PrefixOf(elements, site) == Slashed(elements[2..site])
  {
    var prefixes := elements[2..site];
    SlashedTwo(prefixes);
    forall k | 2 <= k < site
      ensures elements[k] == prefixes[k - 2] && elements[k] != "" && SLASH + "_" + elements[k][1..] == SLASH + elements[k]
    {
      Underscored(prefixes[k - 2]);
    }
    if site == 3 {
      Empty(SLASH + elements[2]);
    }
  }

  lemma Underscored(p: string)
    requires IsPrefix(p)
    ensures p != "" && SLASH + "_" + p[1..] == SLASH + p
  {
    OccursAtChar(p, "_", 0);
    assert p == "_" + p[1..];
    Assoc(SLASH, "_", p[1..]);
  }

  lemma SlashedTwo(elements: seq<string>)
    requires |elements| <= 2
    ensures Slashed(elements)
         == (if |elements| > 0 then SLASH + elements[0] else "") + (if |elements| > 1 then SLASH + elements[1] else "")
  {
    if |elements| == 1 {
      Empty(SLASH + elements[0]);
    } else if |elements| == 2 {
      SlashedOne(elements[1]);
      assert elements[1..] == [elements[1]];
    }
  }

  // ---------- joining the elements again ----------

  lemma {:induction false} JoinSnoc(init: seq<string>, last: string)
    ensures Join(init + [last], SLASH) == if init == [] then last else Join(init, SLASH) + SLASH + last
  {
    if init == [] {
      Empty([last]);
    } else {
      ConsConcat(init, [last]);
      JoinSnoc(init[1..], last);
      if |init| > 1 {
        Assoc(init[0] + SLASH, Join(init[1..], SLASH), SLASH + last);
        Assoc(Join(init[1..], SLASH), SLASH, last);
        Assoc(init[0] + SLASH + Join(init[1..], SLASH), SLASH, last);
      }
    }
  }

  /** Dropping empty elements at the end makes the joined path shorter. */
  lemma {:induction false} DroppedIsShorter(parts: seq<string>)
    ensures |Join(DropTrailingEmpty(parts), SLASH)| <= |Join(parts, SLASH)|
    ensures |parts| > 1 && parts[|parts| - 1] == "" ==> |Join(DropTrailingEmpty(parts), SLASH)| < |Join(parts, SLASH)|
  {
    if |parts| > 0 && parts[|parts| - 1] == "" {
      var init, last := Unsnoc(parts);
      DroppedIsShorter(init);
      JoinSnoc(init, last);
    }
  }

  function Last(parts: seq<string>): string
    requires parts != []
  {
    parts[|parts| - 1]
  }

  lemma OnlyPiece(path: string, from: nat)
    requires from <= |path| && IndexOf(path, SLASH, from).None?
    ensures Last(Pieces(path, SLASH, from)) == path[from..]
    ensures from < |path| ==> path[|path| - 1] != '/'
  {
    IndexOfFirst(path, SLASH, from);
    if from < |path| {
      OccursAtChar(path, SLASH, |path| - 1);
    }
  }

  lemma NextPieces(path: string, from: nat, i: nat)
    requires from <= |path| && IndexOf(path, SLASH, from) == Some(i)
    ensures from <= i < |path| && path[i] == '/' && Last(Pieces(path, SLASH, from)) == Last(Pieces(path, SLASH, i + 1))
  {
    NextPiece(path, SLASH, from, i);
    IndexOfFirst(path, SLASH, from);
    OccursAtChar(path, SLASH, i);
    LastBehind(path[from..i], Pieces(path, SLASH, i + 1));
  }

  /** The last piece is empty exactly if the path ends with a slash or there is nothing left of it. */
  lemma {:induction false} LastPiece(path: string, from: nat)
    requires from <= |path|
    ensures Last(Pieces(path, SLASH, from)) == "" <==> from == |path| || path[|path| - 1] == '/'
    decreases |path| - from
  {
    match IndexOf(path, SLASH, from)
    case None => OnlyPiece(path, from);
    case Some(i) =>
      NextPieces(path, from, i);
      LastPiece(path, i + 1);
  }

  lemma LastBehind(first: string, rest: seq<string>)
    requires rest != []
    ensures Last([first] + rest) == Last(rest)
  {
  }

  /** The last element of the path has an anchor that `splitPath` cuts off. */
  predicate Anchored(path: string)
  {
    var elements := Split(path, SLASH);
    elements != [] && AnchorIn(elements[|elements| - 1]).Some?
  }

  lemma SplitRejoins(path: string)
    ensures |Join(Split(path, SLASH), SLASH)| <= |path|
    ensures Join(Split(path, SLASH), SLASH) == path <==> !EndsWith(path, SLASH)
  {
    EndsWithSlash(path);
    if IndexOf(path, SLASH, 0).None? {
      OnlyPiece(path, 0);
    } else {
      PiecesRejoin(path);
      LastPiece(path, 0);
      DroppedIsShorter(Pieces(path, SLASH));
      NothingToDrop(Pieces(path, SLASH));
    }
  }

  lemma EndsWithSlash(path: string)
    ensures EndsWith(path, SLASH) <==> path != "" && path[|path| - 1] == '/'
  {
    if path != "" {
      OccursAtChar(path, SLASH, |path| - 1);
    }
  }

  lemma PiecesRejoin(path: string)
    ensures Join(Pieces(path, SLASH), SLASH) == path
    ensures IndexOf(path, SLASH, 0).Some? ==> path != "" && |Pieces(path, SLASH)| > 1
  {
    JoinPieces(path, SLASH, 0);
    TakeAll(path);
  }

  lemma NothingToDrop(parts: seq<string>)
    requires parts != []
    ensures Last(parts) != "" ==> DropTrailingEmpty(parts) == parts
  {
  }

  /** The elements rejoin to the path exactly if it has neither a slash nor an anchor at its end. */
  lemma ElementsRejoin(path: string)
    ensures Join(SplitPath(path), SLASH) == path <==> !EndsWith(path, SLASH) && !Anchored(path)
  {
    var elements := Split(path, SLASH);
    SplitRejoins(path);
    if Anchored(path) {
      var init, last := Unsnoc(elements);
      JoinSnoc(init, last);
      JoinSnoc(init, last[..AnchorIn(last).value]);
    }
  }

  /** A path that starts with a slash has an empty first element, unless it is nothing but slashes. */
  lemma SplitStartsEmpty(path: string)
    requires StartsWith(path, SLASH) && Split(path, SLASH) != []
    ensures Split(path, SLASH)[0] == ""
  {
    assert IndexOf(path, SLASH, 0) == Some(0);
    assert Pieces(path, SLASH)[0] == "";
    DroppedIsPrefix(Pieces(path, SLASH));
  }

  lemma FirstIsEmpty(path: string)
    requires StartsWith(path, SLASH) && SplitPath(path) != []
    ensures SplitPath(path)[0] == ""
  {
    SplitStartsEmpty(path);
    assert AnchorIn("").None?;
  }

  lemma {:induction false} DroppedIsPrefix(parts: seq<string>)
    ensures DropTrailingEmpty(parts) <= parts
  {
    if |parts| > 0 && parts[|parts| - 1] == "" {
      DroppedIsPrefix(parts[..|parts| - 1]);
    }
  }

  // ---------- selected paths ----------

  /** No element contains a slash. */
  predicate SlashFree(elements: seq<string>)
  {
    forall e :: e in elements ==> '/' !in e
  }

  /** Each element with a slash behind it. */
  function Directories(elements: seq<string>): string
  {
    if elements == [] then "" else elements[0] + SLASH + Directories(elements[1..])
  }

  lemma {:induction false} JoinIsDirectories(elements: seq<string>)
    requires elements != []
    ensures Directories(elements) == Join(elements, SLASH) + SLASH
  {
    if |elements| == 1 {
      Empty(elements[0] + SLASH);
    } else {
      JoinIsDirectories(elements[1..]);
      Assoc(elements[0] + SLASH, Join(elements[1..], SLASH), SLASH);
    }
  }

  lemma SlashBehind(c: string, x: string)
    requires '/' !in c
    ensures var s := c + SLASH + x;
            s[|c|] == '/' && s[..|c|] == c && s[|c| + 1..] == x && forall k :: 0 <= k < |c| ==> s[k] != '/'
  {
  }

  lemma SameHead(c: string, x: string, e: string, y: string)
    requires '/' !in c && '/' !in e
    ensures c + SLASH + x <= e + SLASH + y <==> c == e && x <= y
  {
    var s, t := c + SLASH + x, e + SLASH + y;
    SlashBehind(c, x);
    SlashBehind(e, y);
    if s <= t {
      assert s[|c|] == t[|c|] && |c| == |e|;
      assert c == s[..|c|] == t[..|c|] == e;
      assert x == t[|c| + 1..|s|] == y[..|x|];
    }
    if c == e && x <= y {
      assert t == s + y[|x|..];
    }
  }

  lemma {:induction false} PrefixIffDirectories(chunks: seq<string>, elements: seq<string>)
    requires SlashFree(chunks) && SlashFree(elements)
    ensures chunks <= elements <==> Directories(chunks) <= Directories(elements)
  {
    if chunks != [] && elements != [] {
      PrefixIffDirectories(chunks[1..], elements[1..]);
      SameHead(chunks[0], Directories(chunks[1..]), elements[0], Directories(elements[1..]));
      assert chunks == [chunks[0]] + chunks[1..] && elements == [elements[0]] + elements[1..];
    }
  }

  /**
   Elements are a prefix of others if and only if their path is the other path or is followed by a slash there:
   `/a` is a prefix of `/a/b` and not of `/ab`.
   */
  lemma PrefixIffPathPrefix(chunks: seq<string>, elements: seq<string>)
    requires SlashFree(chunks) && SlashFree(elements) && chunks != [] && elements != []
    ensures chunks <= elements
       <==> Join(chunks, SLASH) == Join(elements, SLASH) || Join(chunks, SLASH) + SLASH <= Join(elements, SLASH)
  {
    PrefixIffDirectories(chunks, elements);
    JoinIsDirectories(chunks);
    JoinIsDirectories(elements);
  }

  /** A path is selected if and only if the request's path, both split, is the same or goes on with a slash. */
  lemma SelectedIffPathPrefix(path: string, servletPath: string)
    requires SplitPath(path) != [] && SplitPath(servletPath) != []
    ensures var p, q := Join(SplitPath(path), SLASH), Join(SplitPath(servletPath), SLASH);
            SplitPath(path) <= SplitPath(servletPath) <==> p == q || p + SLASH <= q
  {
    SplitIsFree(path);
    SplitIsFree(servletPath);
    PrefixIffPathPrefix(SplitPath(path), SplitPath(servletPath));
  }

  lemma SplitIsFree(path: string)
    ensures SlashFree(SplitPath(path))
  {
    var elements := Split(path, SLASH);
    PiecesAreFree(path, SLASH, 0);
    DroppedIsPrefix(Pieces(path, SLASH));
    assert elements <= Pieces(path, SLASH) by {
      JoinPieces(path, SLASH, 0);
      TakeAll(path);
    }
    forall e | e in Pieces(path, SLASH)
      ensures '/' !in e
    {
      NoSlash(e);
    }
    assert forall e :: e in elements ==> e in Pieces(path, SLASH);
    if elements != [] {
      CutIsFree(elements, AnchorIn(elements[|elements| - 1]));
    }
  }

  lemma CutIsFree(elements: seq<string>, cut: Option<nat>)
    requires SlashFree(elements) && elements != [] && (cut.Some? ==> cut.value <= |elements[|elements| - 1]|)
    ensures cut.Some? ==> SlashFree(elements[..|elements| - 1] + [elements[|elements| - 1][..cut.value]])
  {
    assert elements[|elements| - 1] in elements;
  }

  lemma NoSlash(s: string)
    requires !Contains(s, SLASH)
    ensures '/' !in s
  {
    forall i | 0 <= i < |s|
      ensures s[i] != '/'
    {
      OccursAtChar(s, SLASH, i);
    }
  }

  // ---------- the JSP a path starts with ----------

  /** `getSegments(i)`: the segments behind the first one, up to the i-th. */
  function SegmentsUpTo(segments: seq<string>, i: nat): string
    requires 1 <= i <= |segments|
  {
    if i == 1 then SLASH else Slashed(segments[1..i])
  }

  /** The JSP of the first `i` segments. */
  function JspFile(segments: seq<string>, i: nat, extension: string): string
    requires 1 <= i <= |segments|
  {
    SegmentsUpTo(segments, i) + "." + extension
  }

  /** The JSP of a path is a file: the path, a dot and the extension. */
  lemma JspFileIs(segments: seq<string>, i: nat, extension: string)
    requires 1 <= i <= |segments|
    ensures var path, file := SegmentsUpTo(segments, i), JspFile(segments, i, extension);
            && |file| == |path| + 1 + |extension| && file[..|path|] == path && file[|path|] == '.'
            && file[|path| + 1..] == extension
  {
  }

  /** The first number of segments, from `i` on, whose JSP exists. */
  function FirstJsp(segments: seq<string>, i: nat, extension: string, isFile: string -> bool): (r: Option<nat>)
    requires 1 <= i
    ensures r.Some? ==> i <= r.value <= |segments|
    decreases |segments| + 1 - i
  {
    if i > |segments| then None
    else if isFile(JspFile(segments, i, extension)) then Some(i)
    else FirstJsp(segments, i + 1, extension, isFile)
  }

  lemma {:induction false} FirstJspIsFirst(segments: seq<string>, i: nat, extension: string, isFile: string -> bool)
    requires 1 <= i
    ensures var r := FirstJsp(segments, i, extension, isFile);
            && (r.Some? ==> isFile(JspFile(segments, r.value, extension)))
            && forall k :: i <= k <= |segments| && (r.Some? ==> k < r.value) ==> !isFile(JspFile(segments, k, extension))
    decreases |segments| + 1 - i
  {
    if i <= |segments| && !isFile(JspFile(segments, i, extension)) {
      FirstJspIsFirst(segments, i + 1, extension, isFile);
    }
  }

  /** `initJspUrlParameters`: the path to forward to and the new JSP params, if a JSP was found. */
  function JspPath(path: string, extension: string, isFile: string -> bool): (string, Option<seq<string>>)
  {
    var segments := Split(path, SLASH);
    match FirstJsp(segments, 1, extension, isFile)
    case Some(i) => (JspFile(segments, i, extension), Some(segments[i..]))
    case None => (if segments == [] then path else SegmentsUpTo(segments, |segments|), None)
  }

  /** The path without the slashes at its end. */
  function WithoutTrailingSlashes(path: string): string
  {
    if EndsWith(path, SLASH) then WithoutTrailingSlashes(path[..|path| - 1]) else path
  }

  lemma StripSlash(path: string)
    ensures WithoutTrailingSlashes(path + SLASH) == WithoutTrailingSlashes(path)
  {
    Snoc(path, '/');
    assert OccursAt(path + SLASH, SLASH, |path|);
  }

  lemma StripNothing(path: string, last: string)
    requires last != "" && '/' !in last
    ensures WithoutTrailingSlashes(path + last) == path + last
  {
    assert (path + last)[|path + last| - 1] == last[|last| - 1];
    OccursAtChar(path + last, SLASH, |path + last| - 1);
  }

  lemma {:induction false} DroppedIsStripped(parts: seq<string>)
    requires SlashFree(parts)
    ensures WithoutTrailingSlashes(Join(parts, SLASH)) == Join(DropTrailingEmpty(parts), SLASH)
  {
    if parts != [] {
      var init, last := Unsnoc(parts);
      JoinSnoc(init, last);
      if last == "" {
        DroppedIsStripped(init);
        Empty(Join(init, SLASH) + SLASH);
        StripSlash(Join(init, SLASH));
      } else {
        assert last in parts;
        Empty(last);
        StripNothing(if init == [] then "" else Join(init, SLASH) + SLASH, last);
      }
    }
  }

  /** Splitting a path and joining it again strips the slashes at its end and nothing else. */
  lemma SplitStrips(path: string)
    ensures Join(Split(path, SLASH), SLASH) == WithoutTrailingSlashes(path)
  {
    IndexOfFirst(path, SLASH, 0);
    if IndexOf(path, SLASH, 0).Some? {
      JoinPieces(path, SLASH, 0);
      TakeAll(path);
      PiecesAreFree(path, SLASH, 0);
      forall e | e in Pieces(path, SLASH)
        ensures '/' !in e
      {
        NoSlash(e);
      }
      DroppedIsStripped(Pieces(path, SLASH));
    }
  }

  /** Cutting a path into a prefix of at least one segment and the rest loses nothing but trailing slashes. */
  lemma SegmentsAndRest(path: string, i: nat)
    requires StartsWith(path, SLASH) && 2 <= i <= |Split(path, SLASH)|
    ensures SegmentsUpTo(Split(path, SLASH), i) + Slashed(Split(path, SLASH)[i..]) == WithoutTrailingSlashes(path)
  {
    SplitStrips(path);
    SplitStartsEmpty(path);
    CutSegments(Split(path, SLASH), i);
  }

  lemma CutSegments(segments: seq<string>, i: nat)
    requires 2 <= i <= |segments| && segments[0] == ""
    ensures SegmentsUpTo(segments, i) + Slashed(segments[i..]) == Join(segments, SLASH)
  {
    JoinIsSlashed(segments);
    Empty(Slashed(segments[1..]));
    CutBehind(segments, 1, i);
    SlashedConcat(segments[1..i], segments[i..]);
  }

  /**
   The lookup finds the shortest prefix of the path that has a JSP. If it is at least one segment long, prefix and
   JSP params rebuild the path; if there is none, the whole path is returned and no params are set.
   */
  lemma ShortestJspFound(path: string, extension: string, isFile: string -> bool)
    requires StartsWith(path, SLASH) && Split(path, SLASH) != []
    ensures var segments, r := Split(path, SLASH), JspPath(path, extension, isFile);
            match r.1
            case None =>
              && r.0 == (if |segments| == 1 then SLASH else WithoutTrailingSlashes(path))
              && forall k :: 1 <= k <= |segments| ==> !isFile(JspFile(segments, k, extension))
            case Some(params) =>
              var i := |segments| - |params|;
              && 1 <= i <= |segments| && params == segments[i..]
              && r.0 == JspFile(segments, i, extension) && isFile(r.0)
              && (forall k :: 1 <= k < i ==> !isFile(JspFile(segments, k, extension)))
              && (i > 1 ==> SegmentsUpTo(segments, i) + Slashed(params) == WithoutTrailingSlashes(path))
  {
    var segments := Split(path, SLASH);
    var found := FirstJsp(segments, 1, extension, isFile);
    FirstJspIsFirst(segments, 1, extension, isFile);
    if found.Some? && found.value > 1 {
      SegmentsAndRest(path, found.value);
    }
    if found.None? && |segments| > 1 {
      SegmentsAndRest(path, |segments|);
      Empty(SegmentsUpTo(segments, |segments|));
    }
  }
}
