/**
 * The manifest objects: a `VersionInfo` owns the document tree and the list of `Build`
 * handles read from it; a `Build` is a handle on one `<build>` element of its owner's tree
 * (the element is named by its path) together with the lists and fields mirrored from it.
 * Every mutator rewrites the tree at the build's path and updates the mirrored field, so the
 * handle keeps agreeing with its element.
 */
module ManifestObjects {
  import opened Wrappers
  import opened Text
  import opened Dom
  import opened Manifest

  /** The product of a build handle, the key `builds(product)` filters on. */
  function HandleProduct(b: Build): string {
    b.product
  }

  /** The product of a parsed build record. */
  function ProductOf(b: BuildInfo): string {
    b.product
  }

  /** The `<build>` element `addBuild` creates: ten attributes and no children. */
  function NewBuildElement(product: string, version: string, subproduct: string, buildnum: string, datetime: string,
                           compilertarget: string, licensemodel: string, format: string, platform: string,
                           lang: string): Node
  {
    Element("build", map["product" := product, "version" := version, "subproduct" := subproduct, "build" := buildnum,
                         "datetime" := datetime, "compilertarget" := compilertarget, "licensemodel" := licensemodel,
                         "format" := format, "platform" := platform, "lang" := lang], [])
  }

  /** The attributes of the element `addBuild` creates are the values it was given. */
  lemma NewBuildAttrs(product: string, version: string, subproduct: string, buildnum: string, datetime: string,
                      compilertarget: string, licensemodel: string, format: string, platform: string, lang: string)
    ensures var el := NewBuildElement(product, version, subproduct, buildnum, datetime, compilertarget, licensemodel,
                                      format, platform, lang);
            el.Element? && el.tag == "build" && el.children == [] &&
            "compilertarget" in el.attrs && "version_major" !in el.attrs && "target" !in el.attrs &&
            Attr(el, "product") == product && Attr(el, "version") == version && Attr(el, "subproduct") == subproduct &&
            Attr(el, "build") == buildnum && Attr(el, "datetime") == datetime &&
            Attr(el, "compilertarget") == compilertarget && Attr(el, "licensemodel") == licensemodel &&
            Attr(el, "format") == format && Attr(el, "platform") == platform && Attr(el, "lang") == lang
  {
  }

  /**
   * A childless build element in the 2.0 layout reads as exactly its attributes, with empty
   * lists; an empty version is NoVersion.
   */
  lemma ReadChildlessBuild(el: Node)
    requires el.Element? && el.children == [] && "compilertarget" in el.attrs
    requires "version_major" !in el.attrs && "target" !in el.attrs
    ensures ParseBuild(el) ==
              if Attr(el, "version") == "" then Failure(NoVersion)
              else Success(BuildInfo(V2_0, Attr(el, "product"), Attr(el, "version"), Attr(el, "build"), Attr(el, "datetime"),
                                     Attr(el, "version") + " " + Attr(el, "build"), Attr(el, "lang"),
                                     Current(Attr(el, "subproduct"), Attr(el, "compilertarget"), Attr(el, "licensemodel"),
                                             Attr(el, "format"), Attr(el, "platform")),
                                     [], [], [], map[], [], el))
  {
    assert DetectSchema(el) == Success(V2_0);
    assert Element(el.tag, el.attrs, el.children) == el;
    NoChildrenRead();
  }

  lemma NoChildrenRead()
    ensures ParseNested([]) == Success(Nested([], [], []))
    ensures RepositoryList([]) == [] && MetadataOf([]) == map[] && FileList([]) == []
  {
    assert Tagged([], "repository") == [];
  }

  function RepositoryElement(scheme: string, authority: string, path: string, query: string): Node {
    Element("repository", map["authority" := authority, "path" := path, "query" := query, "scheme" := scheme], [])
  }

  function ItemElement(key: string, value: string): Node {
    Element("item", map["key" := key, "value" := value], [])
  }

  /** A `<file>` element; the size is written only when it is given and not zero. */
  function FileElement(name: string, md5: string, size: Option<nat>): Node {
    var attrs := map["name" := name, "md5" := md5];
    Element("file", if size.Some? && size.value != 0 then attrs["size" := NatToString(size.value)] else attrs, [])
  }

  /** The element with one attribute set. */
  function WithAttr(el: Node, name: string, value: string): Node
    requires el.Element?
  {
    el.(attrs := el.attrs[name := value])
  }

  /** The element with its children replaced. */
  function WithChildren(el: Node, cs: seq<Node>): Node
    requires el.Element?
  {
    el.(children := cs)
  }

  /** `getAttribute` on an attribute map. */
  function AttrIn(attrs: map<string, string>, name: string): string {
    if name in attrs then attrs[name] else ""
  }

  /** `v`, when set, is the value of the attribute `name`. */
  predicate Settable(attrs: map<string, string>, name: string, v: Option<string>) {
    v.Some? ==> AttrIn(attrs, name) == v.value
  }

  /** The scalar fields of a build agree with the attributes of its element. */
  predicate AttrsAgree(attrs: map<string, string>, schema: Schema, product: string, version: string, buildnum: string,
                       datetime: string, fullversion: string, target: string, date: string, time: string, lang: string,
                       compilertarget: Option<string>, licensemodel: Option<string>, format: Option<string>,
                       platform: Option<string>)
  {
    version != "" && fullversion == version + " " + buildnum &&
    product == AttrIn(attrs, "product") && version == AttrIn(attrs, "version") && lang == AttrIn(attrs, "lang") &&
    "version_major" !in attrs &&
    buildnum == AttrIn(attrs, if schema != V2_0 then "version_build" else "build") &&
    (schema != V2_0 ==>
       target == AttrIn(attrs, "target") && date == AttrIn(attrs, "date") && time == AttrIn(attrs, "time") &&
       |date| == 8 && |time| == 6 && datetime == Restamp(date, time)) &&
    (schema == V2_0 ==> datetime == AttrIn(attrs, "datetime")) &&
    Settable(attrs, "compilertarget", compilertarget) && Settable(attrs, "licensemodel", licensemodel) &&
    Settable(attrs, "format", format) && Settable(attrs, "platform", platform) &&
    (schema == V2_0 ==> compilertarget.Some? && licensemodel.Some? && format.Some? && platform.Some?)
  }

  /** The fields of a consistent 1.x record agree with its element, the 2.0 fields unset. */
  lemma LegacyAgrees(b: BuildInfo)
    requires Consistent(b) && b.variant.Legacy?
    ensures AttrsAgree(b.element.attrs, b.schema, b.product, b.version, b.buildnum, b.datetime, b.fullversion,
                       b.variant.target, b.variant.date, b.variant.time, b.lang, None, None, None, None)
  {
  }

  /** The fields of a consistent 2.0 record agree with its element, the 1.x fields empty. */
  lemma CurrentAgrees(b: BuildInfo)
    requires Consistent(b) && b.variant.Current?
    ensures AttrsAgree(b.element.attrs, b.schema, b.product, b.version, b.buildnum, b.datetime, b.fullversion,
                       "", "", "", b.lang, Some(b.variant.compilertarget), Some(b.variant.licensemodel),
                       Some(b.variant.format), Some(b.variant.platform))
  {
  }

  /** Adding a repository element adds its record at the end and changes no other list. */
  lemma ListsAfterRepository(cs: seq<Node>, x: Node, repositories: seq<Repository>, metadata: map<string, string>,
                             fileinfo: seq<FileEntry>, components: seq<BuildInfo>, directcomponents: seq<BuildInfo>)
    requires IsElement(x, "repository")
    requires ListsAgree(cs, repositories, metadata, fileinfo, components, directcomponents)
    ensures ListsAgree(cs + [x], repositories + [RepositoryOf(x)], metadata, fileinfo, components, directcomponents)
  {
    TaggedSnoc(cs, x, "repository");
    RepositoriesSnoc(Tagged(cs, "repository"), x);
    ItemsUnderSnoc(cs, x, "metadata", "item");
    ItemsUnderSnoc(cs, x, "fileinfo", "file");
    ItemsUnderSnoc(cs, x, "components", "build");
    ItemsUnderSnoc(cs, x, "directcomponents", "build");
    assert ItemsUnder(cs, "metadata", "item") + [] == ItemsUnder(cs, "metadata", "item");
    assert ItemsUnder(cs, "fileinfo", "file") + [] == ItemsUnder(cs, "fileinfo", "file");
    assert ItemsUnder(cs, "components", "build") + [] == ItemsUnder(cs, "components", "build");
    assert ItemsUnder(cs, "directcomponents", "build") + [] == ItemsUnder(cs, "directcomponents", "build");
  }

  /** Adding a metadata item maps its key to its value and changes no other list. */
  lemma ListsAfterMetadata(cs: seq<Node>, key: string, value: string, repositories: seq<Repository>,
                           metadata: map<string, string>, fileinfo: seq<FileEntry>, components: seq<BuildInfo>,
                           directcomponents: seq<BuildInfo>)
    requires ListsAgree(cs, repositories, metadata, fileinfo, components, directcomponents)
    ensures ListsAgree(AppendToGroup(cs, "metadata", ItemElement(key, value)), repositories, metadata[key := value],
                       fileinfo, components, directcomponents)
  {
    var x := ItemElement(key, value);
    AppendToGroupItems(cs, "metadata", "item", x);
    MetaMapSnoc(ItemsUnder(cs, "metadata", "item"), x);
    AppendToGroupOther(cs, "metadata", x, "repository", "item");
    AppendToGroupOther(cs, "metadata", x, "fileinfo", "file");
    AppendToGroupOther(cs, "metadata", x, "components", "build");
    AppendToGroupOther(cs, "metadata", x, "directcomponents", "build");
  }

  /** Adding a file entry appends its name and checksum and changes no other list. */
  lemma ListsAfterFile(cs: seq<Node>, x: Node, repositories: seq<Repository>, metadata: map<string, string>,
                       fileinfo: seq<FileEntry>, components: seq<BuildInfo>, directcomponents: seq<BuildInfo>)
    requires IsElement(x, "file")
    requires ListsAgree(cs, repositories, metadata, fileinfo, components, directcomponents)
    ensures ListsAgree(AppendToGroup(cs, "fileinfo", x), repositories, metadata,
                       fileinfo + [FileEntry(Attr(x, "name"), Attr(x, "md5"))], components, directcomponents)
  {
    AppendToGroupItems(cs, "fileinfo", "file", x);
    FilesSnoc(ItemsUnder(cs, "fileinfo", "file"), x);
    AppendToGroupOther(cs, "fileinfo", x, "repository", "item");
    AppendToGroupOther(cs, "fileinfo", x, "metadata", "item");
    AppendToGroupOther(cs, "fileinfo", x, "components", "build");
    AppendToGroupOther(cs, "fileinfo", x, "directcomponents", "build");
  }

  /** Outside `group`, two child lists have the same repositories, items, files and `other` builds. */
  predicate SameOutside(a: seq<Node>, b: seq<Node>, other: string) {
    Tagged(b, "repository") == Tagged(a, "repository") &&
    ItemsUnder(b, "metadata", "item") == ItemsUnder(a, "metadata", "item") &&
    ItemsUnder(b, "fileinfo", "file") == ItemsUnder(a, "fileinfo", "file") &&
    ItemsUnder(b, other, "build") == ItemsUnder(a, other, "build")
  }

  lemma SameOutsideTrans(a: seq<Node>, b: seq<Node>, c: seq<Node>, other: string)
    requires SameOutside(a, b, other) && SameOutside(b, c, other)
    ensures SameOutside(a, c, other)
  {
  }

  /** A new empty group at the end adds no items anywhere. */
  lemma EmptyGroup(cs: seq<Node>, group: string, other: string)
    requires group != other && group !in {"repository", "metadata", "fileinfo"}
    ensures ItemsUnder(cs + [Element(group, map[], [])], group, "build") == ItemsUnder(cs, group, "build")
    ensures SameOutside(cs, cs + [Element(group, map[], [])], other)
  {
    var g := Element(group, map[], []);
    assert Tagged([], "build") == [];
    ItemsUnderSnoc(cs, g, group, "build");
    ItemsUnderSnoc(cs, g, other, "build");
    TaggedSnoc(cs, g, "repository");
    ItemsUnderSnoc(cs, g, "metadata", "item");
    ItemsUnderSnoc(cs, g, "fileinfo", "file");
    assert ItemsUnder(cs, group, "build") + [] == ItemsUnder(cs, group, "build");
    assert ItemsUnder(cs, other, "build") + [] == ItemsUnder(cs, other, "build");
    assert ItemsUnder(cs, "metadata", "item") + [] == ItemsUnder(cs, "metadata", "item");
    assert ItemsUnder(cs, "fileinfo", "file") + [] == ItemsUnder(cs, "fileinfo", "file");
    assert Tagged(cs, "repository") + [] == Tagged(cs, "repository");
  }

  /** One build appended to the last `group` child. */
  lemma AppendBuildStep(cs: seq<Node>, group: string, other: string, x: Node)
    requires IsElement(x, "build") && group != other && group !in {"repository", "metadata", "fileinfo"}
    ensures ItemsUnder(AppendToGroup(cs, group, x), group, "build") == ItemsUnder(cs, group, "build") + [x]
    ensures SameOutside(cs, AppendToGroup(cs, group, x), other)
  {
    AppendToGroupItems(cs, group, "build", x);
    AppendToGroupOther(cs, group, x, other, "build");
    AppendToGroupOther(cs, group, x, "repository", "item");
    AppendToGroupOther(cs, group, x, "metadata", "item");
    AppendToGroupOther(cs, group, x, "fileinfo", "file");
  }

  /** Every build of `xs` lands in the `group` child, in order, and nothing outside it changes. */
  lemma {:induction false} AppendAllBuilds(cs: seq<Node>, group: string, other: string, xs: seq<Node>)
    requires forall j | 0 <= j < |xs| :: IsElement(xs[j], "build")
    requires group != other && group !in {"repository", "metadata", "fileinfo"}
    ensures ItemsUnder(AppendAllToGroup(cs, group, xs), group, "build") == ItemsUnder(cs, group, "build") + xs
    ensures SameOutside(cs, AppendAllToGroup(cs, group, xs), other)
  {
    if xs == [] {
      if LastIndex(cs, group) < 0 {
        EmptyGroup(cs, group, other);
      }
      assert ItemsUnder(cs, group, "build") + [] == ItemsUnder(cs, group, "build");
    } else {
      var n := |xs| - 1;
      AppendAllBuilds(cs, group, other, xs[..n]);
      var prev := AppendAllToGroup(cs, group, xs[..n]);
      AppendBuildStep(prev, group, other, xs[n]);
      SameOutsideTrans(cs, prev, AppendAllToGroup(cs, group, xs), other);
      SnocLast(ItemsUnder(cs, group, "build"), xs);
    }
  }

  /** Adding selected builds as components extends the components and changes no other list. */
  lemma ListsAfterComponents(cs: seq<Node>, sel: seq<BuildInfo>, repositories: seq<Repository>,
                             metadata: map<string, string>, fileinfo: seq<FileEntry>,
                             components: seq<BuildInfo>, directcomponents: seq<BuildInfo>)
    requires forall j | 0 <= j < |sel| :: IsElement(sel[j].element, "build")
    requires ListsAgree(cs, repositories, metadata, fileinfo, components, directcomponents)
    ensures ListsAgree(AppendAllToGroup(cs, "components", Elements(sel)), repositories, metadata, fileinfo,
                       components + sel, directcomponents)
  {
    BuildElements(sel);
    AppendAllBuilds(cs, "components", "directcomponents", Elements(sel));
    ElementsAppend(components, sel);
  }

  /** The same for direct components. */
  lemma ListsAfterDirectComponents(cs: seq<Node>, sel: seq<BuildInfo>, repositories: seq<Repository>,
                                   metadata: map<string, string>, fileinfo: seq<FileEntry>,
                                   components: seq<BuildInfo>, directcomponents: seq<BuildInfo>)
    requires forall j | 0 <= j < |sel| :: IsElement(sel[j].element, "build")
    requires ListsAgree(cs, repositories, metadata, fileinfo, components, directcomponents)
    ensures ListsAgree(AppendAllToGroup(cs, "directcomponents", Elements(sel)), repositories, metadata, fileinfo,
                       components, directcomponents + sel)
  {
    BuildElements(sel);
    AppendAllBuilds(cs, "directcomponents", "components", Elements(sel));
    ElementsAppend(directcomponents, sel);
  }

  lemma BuildElements(sel: seq<BuildInfo>)
    requires forall j | 0 <= j < |sel| :: IsElement(sel[j].element, "build")
    ensures forall j | 0 <= j < |Elements(sel)| :: IsElement(Elements(sel)[j], "build")
  {
    forall j | 0 <= j < |Elements(sel)|
      ensures IsElement(Elements(sel)[j], "build")
    {
      ElementsIndex(sel, j);
    }
  }

  /** The builds selected from a loaded manifest are `<build>` elements. */
  lemma SelectedAreBuilds(root: Node, product: Option<string>, sel: seq<BuildInfo>)
    requires root.Element? && ParseManifest(root).Success?
    requires sel == FilterBy(ParseManifest(root).value.builds, ProductOf, product)
    ensures forall j | 0 <= j < |sel| :: IsElement(sel[j].element, "build")
  {
    LoadedBuilds(root);
    SelectedBuilds(ParseManifest(root).value.builds, product);
  }

  /** Every build of a loaded manifest is a consistent record of a `<build>` element. */
  lemma LoadedBuilds(root: Node)
    requires root.Element? && ParseManifest(root).Success?
    ensures var bs := ParseManifest(root).value.builds;
            forall j | 0 <= j < |bs| :: IsElement(bs[j].element, "build") && Consistent(bs[j])
  {
    var m := ParseManifest(root).value;
    forall j | 0 <= j < |m.builds|
      ensures IsElement(m.builds[j].element, "build")
    {
      ElementsIndex(m.builds, j);
    }
  }

  /** The selected builds of a source manifest keep the properties of all its builds. */
  lemma SelectedBuilds(xs: seq<BuildInfo>, product: Option<string>)
    requires forall j | 0 <= j < |xs| :: IsElement(xs[j].element, "build") && Consistent(xs[j])
    ensures var sel := FilterBy(xs, ProductOf, product);
            forall j | 0 <= j < |sel| :: IsElement(sel[j].element, "build") && Consistent(sel[j])
  {
    if product.Some? {
      FilterExact(xs, ProductOf, product.value);
      var sel, ix := FilterBy(xs, ProductOf, product), MatchIndices(xs, ProductOf, product.value);
      forall j | 0 <= j < |sel|
        ensures IsElement(sel[j].element, "build") && Consistent(sel[j])
      {
        assert sel[j] == xs[ix[j]];
      }
    }
  }

  /** The node at `p + [j]` after the node at `p` is replaced by an element. */
  lemma ChildAt(n: Node, p: seq<nat>, x: Node, j: nat)
    requires ValidPath(n, p) && x.Element? && j < |x.children|
    ensures ValidPath(UpdateAt(n, p, x), p + [j]) && At(UpdateAt(n, p, x), p + [j]) == x.children[j]
  {
    UpdateAtTarget(n, p, x);
    PathExtend(UpdateAt(n, p, x), p, j);
  }

  /** Every reading failure among the first `k` siblings is the failure of the whole run. */
  lemma {:induction false} GroupFailureStays(cs: seq<Node>, k: nat)
    requires k <= |cs| && ParseGroup(cs[..k]).Failure?
    ensures ParseGroup(cs) == ParseGroup(cs[..k])
    decreases |cs| - k
  {
    if k < |cs| {
      assert cs[..k + 1][..k] == cs[..k];
      GroupFailureStays(cs, k + 1);
    } else {
      assert cs[..k] == cs;
    }
  }

  /** Reading one more sibling of `<versioninfo>` is one step of `GroupStep`. */
  lemma GroupPrefixStep(cs: seq<Node>, i: nat, g: Group)
    requires i < |cs| && ParseGroup(cs[..i]) == Success(g)
    ensures Elements(g.builds) == Tagged(g.children, "build")
    ensures ParseGroup(cs[..i + 1]) == GroupStep(g, cs[i])
  {
    assert cs[..i + 1][..i] == cs[..i];
  }

  /**
   * The handles read so far from the siblings `done`: the `j`th names the sibling `idx[j]`,
   * in increasing order, and carries the record `infos[j]` read from it.
   */
  ghost predicate HandlesOn(hs: seq<Build>, v: VersionInfo, vpath: seq<nat>, idx: seq<nat>,
                            infos: seq<BuildInfo>, done: seq<Node>)
    reads hs
  {
    |hs| == |idx| == |infos| &&
    (forall j | 0 <= j < |idx| :: idx[j] < |done| && done[idx[j]] == infos[j].element &&
                                  IsElement(infos[j].element, "build")) &&
    (forall j, k | 0 <= j < k < |idx| :: idx[j] < idx[k]) &&
    forall j | 0 <= j < |hs| ::
      hs[j].owner == v && hs[j].path == vpath + [idx[j]] && hs[j].Holds(infos[j]) && hs[j].Mirrors(infos[j].element)
  }

  lemma HandlesGrow(hs: seq<Build>, h: Build, v: VersionInfo, vpath: seq<nat>, idx: seq<nat>,
                    infos: seq<BuildInfo>, done: seq<Node>, b: BuildInfo, i: nat)
    requires HandlesOn(hs, v, vpath, idx, infos, done) && i == |done|
    requires IsElement(b.element, "build")
    requires h.owner == v && h.path == vpath + [i] && h.Holds(b) && h.Mirrors(b.element)
    ensures HandlesOn(hs + [h], v, vpath, idx + [i], infos + [b], done + [b.element])
  {
  }

  lemma HandlesSkip(hs: seq<Build>, v: VersionInfo, vpath: seq<nat>, idx: seq<nat>,
                    infos: seq<BuildInfo>, done: seq<Node>, x: Node)
    requires HandlesOn(hs, v, vpath, idx, infos, done)
    ensures HandlesOn(hs, v, vpath, idx, infos, done + [x])
  {
  }

  /** What a successful `ParseManifest` returns, once the siblings are read. */
  lemma LoadedIs(root: Node, g: Group)
    requires root.Element? && IsFloatLiteral(Attr(root, "version")) && OccSeq(root.children, "versioninfo") == 1
    requires ParseGroup(At(root, LocateVersionInfo(root)).children) == Success(g)
    ensures var vpath := LocateVersionInfo(root);
            ParseManifest(root) ==
            Success(Loaded(Attr(root, "version"), vpath, UpdateAt(root, vpath, WithChildren(At(root, vpath), g.children)), g.builds))
  {
  }

  /** A reading failure among the siblings is the failure of `ParseManifest`. */
  lemma LoadFails(root: Node, e: ManifestError)
    requires root.Element? && IsFloatLiteral(Attr(root, "version")) && OccSeq(root.children, "versioninfo") == 1
    requires ParseGroup(At(root, LocateVersionInfo(root)).children) == Failure(e)
    ensures ParseManifest(root) == Failure(e)
  {
  }

  /** Once the owner holds the new children, every handle read from them is valid. */
  lemma HandlesValid(hs: seq<Build>, v: VersionInfo, vpath: seq<nat>, idx: seq<nat>,
                     infos: seq<BuildInfo>, done: seq<Node>, root: Node, vi: Node)
    requires HandlesOn(hs, v, vpath, idx, infos, done)
    requires ValidPath(root, vpath) && vi == At(root, vpath) && vi.Element?
    requires v.vpath == vpath && v.doc == UpdateAt(root, vpath, WithChildren(vi, done))
    ensures forall j | 0 <= j < |hs| :: hs[j].Valid()
  {
    forall j | 0 <= j < |hs|
      ensures hs[j].Valid()
    {
      ChildAt(root, vpath, WithChildren(vi, done), idx[j]);
      assert hs[j].path[..|vpath|] == vpath;
    }
  }

  /** Appending a child to the element at `p` leaves every earlier child of it where it was. */
  lemma ChildStays(n: Node, p: seq<nat>, x: Node, q: seq<nat>)
    requires ValidPath(n, p) && At(n, p).Element?
    requires |q| == |p| + 1 && q[..|p|] == p && ValidPath(n, q)
    ensures var e := At(n, p);
            ValidPath(UpdateAt(n, p, WithChildren(e, e.children + [x])), q) &&
            At(UpdateAt(n, p, WithChildren(e, e.children + [x])), q) == At(n, q)
  {
    var e := At(n, p);
    var e' := WithChildren(e, e.children + [x]);
    PathSplit(n, p, q);
    UpdateAtTarget(n, p, e');
    PathJoin(UpdateAt(n, p, e'), p, q);
  }

  class VersionInfo {
    /** The whole document, rooted at the `<manifest>` element. */
    var doc: Node
    /** Where the `<versioninfo>` element is. */
    const vpath: seq<nat>
    var buildlist: seq<Build>
    /** The manifest version text; never set on a manifest created empty. */
    var manifestversion: Option<string>

    predicate Valid()
      reads this
    {
      ValidPath(doc, vpath) && IsElement(At(doc, vpath), "versioninfo")
    }

    /**
     * The object holds the loaded manifest `m`: the same tree and version, and one valid
     * handle per build record, in document order.
     */
    ghost predicate Represents(m: Loaded)
      reads this, set j | 0 <= j < |buildlist| :: buildlist[j]
    {
      Valid() && doc == m.doc && vpath == m.vpath && manifestversion == Some(m.version) &&
      |buildlist| == |m.builds| &&
      (forall j | 0 <= j < |m.builds| ::
         buildlist[j].owner == this && buildlist[j].Valid() && buildlist[j].Holds(m.builds[j])) &&
      (forall j, k | 0 <= j < k < |m.builds| :: buildlist[j].path[|vpath|] < buildlist[k].path[|vpath|])
    }

    /** A new manifest: `<manifest version="2.0">` holding one empty `<versioninfo>`. */
    constructor Empty()
      ensures Valid()
      ensures doc == Element("manifest", map["version" := "2.0"], [Element("versioninfo", map[], [])])
      ensures vpath == [0] && buildlist == [] && manifestversion == None
    {
      doc := Element("manifest", map["version" := "2.0"], [Element("versioninfo", map[], [])]);
      vpath := [0];
      buildlist := [];
      manifestversion := None;
    }

    constructor Init(root: Node, vpath: seq<nat>, version: string)
      ensures this.doc == root && this.vpath == vpath && buildlist == [] && manifestversion == Some(version)
    {
      doc := root;
      this.vpath := vpath;
      buildlist := [];
      manifestversion := Some(version);
    }

    /**
     * Loading a manifest from its root element: the checks of `ParseManifest`, then one pass
     * over the children of `<versioninfo>` that reads each `<build>`, writes the normalised
     * element back into the tree and appends a handle on it.
     */
    static method Load(root: Node) returns (r: Result<VersionInfo, ManifestError>)
      requires root.Element?
      ensures r.Failure? <==> ParseManifest(root).Failure?
      ensures r.Failure? ==> r.error == ParseManifest(root).error
      ensures r.Success? ==> fresh(r.value) && r.value.Represents(ParseManifest(root).value)
    {
      var version := Attr(root, "version");
      if !IsFloatLiteral(version) {
        return Failure(NotANumber(version));
      }
      var count := OccSeq(root.children, "versioninfo");
      if count == 0 {
        return Failure(NoVersionInfo);
      } else if count > 1 {
        return Failure(ManyVersionInfo);
      }
      r := ReadVersionInfo(root, version);
    }

    /** The pass over the children of the one `<versioninfo>` of a manifest whose version is a number. */
    static method ReadVersionInfo(root: Node, version: string) returns (r: Result<VersionInfo, ManifestError>)
      requires root.Element? && version == Attr(root, "version") && IsFloatLiteral(version)
      requires OccSeq(root.children, "versioninfo") == 1
      ensures r.Failure? <==> ParseManifest(root).Failure?
      ensures r.Failure? ==> r.error == ParseManifest(root).error
      ensures r.Success? ==> fresh(r.value) && r.value.Represents(ParseManifest(root).value)
    {
      var vpath := LocateVersionInfo(root);
      var vi := At(root, vpath);
      var v := new VersionInfo.Init(root, vpath, version);
      var read, infos, idx := ReadChildren(v, vpath, vi.children);
      if read.Failure? {
        LoadFails(root, read.error);
        return Failure(read.error);
      }
      var (done, handles) := read.value;
      LoadedIs(root, Group(infos, done));
      v.Adopt(root, vi, done, handles, version, infos, idx);
      return Success(v);
    }

    /** The normalised children go into the tree, and the handles made on them into the list of builds. */
    method Adopt(root: Node, vi: Node, done: seq<Node>, handles: seq<Build>, version: string,
                 ghost infos: seq<BuildInfo>, ghost idx: seq<nat>)
      requires ValidPath(root, vpath) && vi == At(root, vpath) && IsElement(vi, "versioninfo")
      requires manifestversion == Some(version)
      requires HandlesOn(handles, this, vpath, idx, infos, done)
      modifies this`doc, this`buildlist
      ensures doc == UpdateAt(root, vpath, WithChildren(vi, done)) && buildlist == handles
      ensures Represents(Loaded(version, vpath, doc, infos))
    {
      doc := UpdateAt(root, vpath, WithChildren(vi, done));
      buildlist := handles;
      HandlesValid(handles, this, vpath, idx, infos, done, root, vi);
      UpdateAtTarget(root, vpath, WithChildren(vi, done));
    }

    /**
     * The loop over the children `cs` of `<versioninfo>`: every `<build>` is read and a handle
     * on it made; the children come back normalised.
     */
    static method ReadChildren(v: VersionInfo, vpath: seq<nat>, cs: seq<Node>)
      returns (r: Result<(seq<Node>, seq<Build>), ManifestError>, ghost infos: seq<BuildInfo>, ghost idx: seq<nat>)
      ensures r.Failure? <==> ParseGroup(cs).Failure?
      ensures r.Failure? ==> r.error == ParseGroup(cs).error
      ensures r.Success? ==> ParseGroup(cs) == Success(Group(infos, r.value.0)) &&
                             HandlesOn(r.value.1, v, vpath, idx, infos, r.value.0)
    {
      var done: seq<Node> := [];
      var handles: seq<Build> := [];
      infos, idx := [], [];
      var i := 0;
      assert cs[..0] == [];
      while i < |cs|
        invariant 0 <= i <= |cs|
        invariant ParseGroup(cs[..i]) == Success(Group(infos, done))
        invariant |done| == i
        invariant HandlesOn(handles, v, vpath, idx, infos, done)
      {
        var step;
        step, infos, idx := ReadSibling(v, vpath, cs, i, done, handles, infos, idx);
        if step.Failure? {
          GroupFailureStays(cs, i + 1);
          return Failure(step.error), infos, idx;
        }
        done, handles := step.value.0, step.value.1;
        i := i + 1;
      }
      assert cs[..i] == cs;
      return Success((done, handles)), infos, idx;
    }

    /** One turn of that loop: the sibling `cs[i]` is read, and a handle made when it is a `<build>`. */
    static method ReadSibling(v: VersionInfo, vpath: seq<nat>, cs: seq<Node>, i: nat, done: seq<Node>, handles: seq<Build>,
                              ghost infos: seq<BuildInfo>, ghost idx: seq<nat>)
      returns (r: Result<(seq<Node>, seq<Build>), ManifestError>, ghost infos': seq<BuildInfo>, ghost idx': seq<nat>)
      requires i < |cs| && |done| == i && ParseGroup(cs[..i]) == Success(Group(infos, done))
      requires HandlesOn(handles, v, vpath, idx, infos, done)
      ensures r.Failure? ==> ParseGroup(cs[..i + 1]) == Failure(r.error)
      ensures r.Success? ==> ParseGroup(cs[..i + 1]) == Success(Group(infos', r.value.0)) && |r.value.0| == i + 1 &&
                             HandlesOn(r.value.1, v, vpath, idx', infos', r.value.0)
    {
      var x := cs[i];
      GroupPrefixStep(cs, i, Group(infos, done));
      if IsElement(x, "build") {
        var parsed := ParseBuild(x);
        if parsed.Failure? {
          return Failure(parsed.error), infos, idx;
        }
        var b := parsed.value;
        BuildConsistent(x);
        var h := new Build.Read(v, vpath + [i], b);
        HandlesGrow(handles, h, v, vpath, idx, infos, done, b, i);
        return Success((done + [b.element], handles + [h])), infos + [b], idx + [i];
      } else {
        HandlesSkip(handles, v, vpath, idx, infos, done, x);
        return Success((done + [x], handles)), infos, idx;
      }
    }

    /**
     * `addBuild`: a new schema-2.0 `<build>` with the ten given attributes goes at the end of
     * `<versioninfo>`, even when the version is empty and reading it then fails. The list of
     * builds is not extended.
     */
    method AddBuild(product: string, version: string, subproduct: string, buildnum: string, datetime: string,
                    compilertarget: string, licensemodel: string, format: string, platform: string, lang: string)
      returns (r: Result<Build, ManifestError>)
      requires Valid()
      modifies this`doc
      ensures Valid()
      ensures var vi := old(At(doc, vpath));
              doc == UpdateAt(old(doc), vpath,
                              WithChildren(vi, vi.children + [NewBuildElement(product, version, subproduct, buildnum, datetime,
                                                                               compilertarget, licensemodel, format, platform, lang)]))
      ensures r.Failure? <==> version == ""
      ensures r.Failure? ==> r.error == NoVersion
      ensures r.Success? ==>
                fresh(r.value) && r.value.owner == this && r.value.path == vpath + [|old(At(doc, vpath)).children|] &&
                r.value.Valid() && r.value.schema == V2_0 && r.value.product == product &&
                r.value.fullversion == version + " " + buildnum && r.value.datetime == datetime
      ensures forall b | b in buildlist && old(b.Valid()) :: b.Valid()
    {
      var el := NewBuildElement(product, version, subproduct, buildnum, datetime, compilertarget, licensemodel,
                                format, platform, lang);
      var n := |At(doc, vpath).children|;
      AppendToVersionInfo(el);
      NewBuildAttrs(product, version, subproduct, buildnum, datetime, compilertarget, licensemodel, format, platform, lang);
      ReadChildlessBuild(el);
      var parsed := ParseBuild(el);
      if version == "" {
        return Failure(NoVersion);
      }
      BuildConsistent(el);
      var b := new Build.Read(this, vpath + [n], parsed.value);
      assert (vpath + [n])[..|vpath|] == vpath;
      return Success(b);
    }

    /** `el` becomes the last child of `<versioninfo>`; every handle that was valid stays valid. */
    method AppendToVersionInfo(el: Node)
      requires Valid()
      modifies this`doc
      ensures Valid()
      ensures var vi := old(At(doc, vpath));
              doc == UpdateAt(old(doc), vpath, WithChildren(vi, vi.children + [el]))
      ensures var n := |old(At(doc, vpath)).children|;
              ValidPath(doc, vpath + [n]) && At(doc, vpath + [n]) == el
      ensures forall b | b in buildlist && old(b.Valid()) :: b.Valid()
    {
      var vi := At(doc, vpath);
      var n := |vi.children|;
      var vi' := WithChildren(vi, vi.children + [el]);
      var doc0 := doc;
      doc := UpdateAt(doc, vpath, vi');
      UpdateAtTarget(doc0, vpath, vi');
      ChildAt(doc0, vpath, vi', n);
      forall b | b in buildlist && old(b.Valid())
        ensures b.Valid()
      {
        if b.owner == this {
          ChildStays(doc0, vpath, el, b.path);
        }
      }
    }

    /** `builds(product)`: every build, or only those of the given product, in list order. */
    method Builds(product: Option<string>) returns (r: seq<Build>)
      ensures r == FilterBy(buildlist, HandleProduct, product)
    {
      if product.None? {
        return buildlist;
      }
      r := [];
      var i := 0;
      while i < |buildlist|
        invariant 0 <= i <= |buildlist|
        invariant r == FilterBy(buildlist[..i], HandleProduct, product)
      {
        assert buildlist[..i + 1][..i] == buildlist[..i];
        if buildlist[i].product == product.value {
          r := r + [buildlist[i]];
        }
        i := i + 1;
      }
      assert buildlist[..i] == buildlist;
    }

    /** `simpleVersionStrings(product)`: "product fullversion" for each selected build. */
    method SimpleVersionStrings(product: Option<string>) returns (r: seq<string>)
      ensures var bs := FilterBy(buildlist, HandleProduct, product);
              |r| == |bs| && forall i | 0 <= i < |r| :: r[i] == bs[i].product + " " + bs[i].fullversion
    {
      var bs := Builds(product);
      r := [];
      var i := 0;
      while i < |bs|
        invariant 0 <= i <= |bs| && |r| == i
        invariant forall j | 0 <= j < i :: r[j] == bs[j].product + " " + bs[j].fullversion
      {
        r := r + [bs[i].product + " " + bs[i].fullversion];
        i := i + 1;
      }
    }

    /** `simpleVersionDates(product)`: the date stamp of each selected build. */
    method SimpleVersionDates(product: Option<string>) returns (r: seq<string>)
      ensures var bs := FilterBy(buildlist, HandleProduct, product);
              |r| == |bs| && forall i | 0 <= i < |r| :: r[i] == bs[i].datetime
    {
      var bs := Builds(product);
      r := [];
      var i := 0;
      while i < |bs|
        invariant 0 <= i <= |bs| && |r| == i
        invariant forall j | 0 <= j < i :: r[j] == bs[j].datetime
      {
        r := r + [bs[i].datetime];
        i := i + 1;
      }
    }

    /** `target()`: the target of the first build when it uses a 1.x layout, nothing for 2.0. */
    method Target() returns (r: Result<Option<string>, ManifestError>)
      ensures buildlist == [] ==> r == Failure(NoBuilds)
      ensures buildlist != [] ==> r.Success? && (r.value.Some? <==> buildlist[0].schema != V2_0)
      ensures buildlist != [] && buildlist[0].Valid() && buildlist[0].schema != V2_0 ==>
                r.value == Some(Attr(At(buildlist[0].owner.doc, buildlist[0].path), "target"))
      ensures buildlist != [] && buildlist[0].schema != V2_0 ==> r.value == Some(buildlist[0].target)
    {
      if buildlist == [] {
        return Failure(NoBuilds);
      }
      var b := buildlist[0];
      if b.schema != V2_0 {
        return Success(Some(b.target));
      }
      return Success(None);
    }

    /** `version()`: the manifest version read at load time. */
    method Version() returns (r: Result<string, ManifestError>)
      ensures manifestversion.None? ==> r == Failure(VersionUnset)
      ensures manifestversion.Some? ==> r == Success(manifestversion.value)
    {
      if manifestversion.None? {
        return Failure(VersionUnset);
      }
      return Success(manifestversion.value);
    }

    /**
     * `removeComponents`: while the document has more than one `<components>` element, the
     * second one in document order is detached. What remains is the tree with only the first.
     * When every `<components>` lies inside `<versioninfo>`, as the manifest layout has it, the
     * pruning happens inside that element: it stays at `vpath` and the object stays valid.
     */
    method RemoveComponents()
      modifies this`doc
      ensures doc == KeepFirst(old(doc), "components")
      ensures Occ(doc, "components") == if Occ(old(doc), "components") > 0 then 1 else 0
      ensures old(Valid()) && Occ(old(At(doc, vpath)), "components") == Occ(old(doc), "components") ==>
                Valid() && doc == UpdateAt(old(doc), vpath, KeepFirst(old(At(doc, vpath)), "components"))
    {
      if Valid() && Occ(At(doc, vpath), "components") == Occ(doc, "components") {
        KeepFirstAlong(doc, vpath, "components");
      }
      while Occ(doc, "components") > 1
        invariant KeepFirst(doc, "components") == KeepFirst(old(doc), "components")
        decreases Occ(doc, "components")
      {
        KeepFirstAfterRemoveNode(doc, "components", 1);
        RemoveLowersCountNode(doc, "components", 1);
        var next := RemoveBelow(doc, "components", 1);
        assert [next][..0] == [];
        assert OccSeq([next], "components") == Occ(next, "components");
        doc := next;
      }
      KeepFirstFixed(doc, "components");
      KeepFirstCount(old(doc), "components");
    }
  }

  class Build {
    const owner: VersionInfo
    /** Path of the `<build>` element in the owner's tree. */
    const path: seq<nat>
    const schema: Schema
    const product: string
    const version: string
    const buildnum: string
    const datetime: string
    const fullversion: string
    /** 1.x builds only (empty on 2.0 builds). */
    const target: string
    const date: string
    const time: string
    const phaseMajor: string
    const phaseMinor: string
    /** 2.0 builds only (empty on 1.x builds). */
    const subproduct: string
    /** Set on 2.0 builds from the start, on 1.x builds only once a setter ran. */
    var compilertarget: Option<string>
    var licensemodel: Option<string>
    var format: Option<string>
    var platform: Option<string>
    var lang: string
    var repositories: seq<Repository>
    var components: seq<BuildInfo>
    var directcomponents: seq<BuildInfo>
    var metadata: map<string, string>
    var fileinfo: seq<FileEntry>

    /** The fields agree with the element `el`. */
    predicate Mirrors(el: Node)
      reads this
    {
      el.Element? &&
      AttrsAgree(el.attrs, schema, product, version, buildnum, datetime, fullversion, target, date, time, lang,
                 compilertarget, licensemodel, format, platform) &&
      ListsAgree(el.children, repositories, metadata, fileinfo, components, directcomponents)
    }

    /** The handle names a `<build>` child of its owner's `<versioninfo>` and mirrors it. */
    predicate Valid()
      reads this, owner
    {
      |path| == |owner.vpath| + 1 && path[..|owner.vpath|] == owner.vpath &&
      ValidPath(owner.doc, path) && IsElement(At(owner.doc, path), "build") && Mirrors(At(owner.doc, path))
    }

    /** The fields are those of the record `b`. */
    predicate Holds(b: BuildInfo)
      reads this
    {
      schema == b.schema && product == b.product && version == b.version && buildnum == b.buildnum &&
      datetime == b.datetime && fullversion == b.fullversion && lang == b.lang &&
      repositories == b.repositories && components == b.components && directcomponents == b.directcomponents &&
      metadata == b.metadata && fileinfo == b.fileinfo &&
      (b.variant.Legacy? ==> target == b.variant.target && date == b.variant.date && time == b.variant.time &&
                             phaseMajor == b.variant.phaseMajor && phaseMinor == b.variant.phaseMinor &&
                             compilertarget.None?) &&
      (b.variant.Current? ==> subproduct == b.variant.subproduct &&
                              compilertarget == Some(b.variant.compilertarget) &&
                              licensemodel == Some(b.variant.licensemodel) &&
                              format == Some(b.variant.format) && platform == Some(b.variant.platform))
    }

    /** A handle on the element at `path`, with the fields of its record. */
    constructor Read(owner: VersionInfo, path: seq<nat>, b: BuildInfo)
      requires Consistent(b)
      ensures this.owner == owner && this.path == path && Holds(b) && Mirrors(b.element)
    {
      this.owner := owner;
      this.path := path;
      schema := b.schema;
      product := b.product;
      version := b.version;
      buildnum := b.buildnum;
      datetime := b.datetime;
      fullversion := b.fullversion;
      lang := b.lang;
      repositories := b.repositories;
      components := b.components;
      directcomponents := b.directcomponents;
      metadata := b.metadata;
      fileinfo := b.fileinfo;
      match b.variant {
        case Legacy(d, t, tg, pm, pn) =>
          LegacyAgrees(b);
          target, date, time, phaseMajor, phaseMinor := tg, d, t, pm, pn;
          subproduct := "";
          compilertarget, licensemodel, format, platform := None, None, None, None;
        case Current(sp, ct, lm, f, pf) =>
          CurrentAgrees(b);
          target, date, time, phaseMajor, phaseMinor := "", "", "", "", "";
          subproduct := sp;
          compilertarget, licensemodel, format, platform := Some(ct), Some(lm), Some(f), Some(pf);
      }
    }

    /** Writes the new element into the owner's tree; the owner's `<versioninfo>` stays where it was. */
    method Store(el: Node)
      requires Valid() && owner.Valid() && el.Element? && el.tag == "build"
      modifies owner`doc
      ensures owner.doc == UpdateAt(old(owner.doc), path, el)
      ensures ValidPath(owner.doc, path) && At(owner.doc, path) == el && owner.Valid()
    {
      var doc0 := owner.doc;
      owner.doc := UpdateAt(doc0, path, el);
      UpdateAtTarget(doc0, path, el);
      assert IsPrefix(owner.vpath, path);
      UpdateAtAbove(doc0, path, owner.vpath, el);
    }

    /** `setCompilerTarget`: the attribute and the field get the new value. */
    method SetCompilerTarget(value: string)
      requires Valid() && owner.Valid()
      modifies this`compilertarget, owner`doc
      ensures Valid() && owner.Valid() && compilertarget == Some(value)
      ensures owner.doc == UpdateAt(old(owner.doc), path, WithAttr(old(At(owner.doc, path)), "compilertarget", value))
    {
      var el := WithAttr(At(owner.doc, path), "compilertarget", value);
      Store(el);
      compilertarget := Some(value);
    }

    /** `setLicenseModel`. */
    method SetLicenseModel(value: string)
      requires Valid() && owner.Valid()
      modifies this`licensemodel, owner`doc
      ensures Valid() && owner.Valid() && licensemodel == Some(value)
      ensures owner.doc == UpdateAt(old(owner.doc), path, WithAttr(old(At(owner.doc, path)), "licensemodel", value))
    {
      var el := WithAttr(At(owner.doc, path), "licensemodel", value);
      Store(el);
      licensemodel := Some(value);
    }

    /** `setFormat`. */
    method SetFormat(value: string)
      requires Valid() && owner.Valid()
      modifies this`format, owner`doc
      ensures Valid() && owner.Valid() && format == Some(value)
      ensures owner.doc == UpdateAt(old(owner.doc), path, WithAttr(old(At(owner.doc, path)), "format", value))
    {
      var el := WithAttr(At(owner.doc, path), "format", value);
      Store(el);
      format := Some(value);
    }

    /** `setLang`. */
    method SetLang(value: string)
      requires Valid() && owner.Valid()
      modifies this`lang, owner`doc
      ensures Valid() && owner.Valid() && lang == value
      ensures owner.doc == UpdateAt(old(owner.doc), path, WithAttr(old(At(owner.doc, path)), "lang", value))
    {
      var el := WithAttr(At(owner.doc, path), "lang", value);
      Store(el);
      lang := value;
    }

    /** `setPlatform`. */
    method SetPlatform(value: string)
      requires Valid() && owner.Valid()
      modifies this`platform, owner`doc
      ensures Valid() && owner.Valid() && platform == Some(value)
      ensures owner.doc == UpdateAt(old(owner.doc), path, WithAttr(old(At(owner.doc, path)), "platform", value))
    {
      var el := WithAttr(At(owner.doc, path), "platform", value);
      Store(el);
      platform := Some(value);
    }

    /** `addRepository`: a `<repository>` child at the end and its record at the end of the list. */
    method AddRepository(scheme: string, authority: string, repoPath: string, query: string)
      requires Valid() && owner.Valid()
      modifies this`repositories, owner`doc
      ensures Valid() && owner.Valid()
      ensures var el := old(At(owner.doc, path));
              owner.doc == UpdateAt(old(owner.doc), path,
                                    WithChildren(el, el.children + [RepositoryElement(scheme, authority, repoPath, query)]))
      ensures repositories == old(repositories) +
                [Repository(scheme, authority, repoPath, query, scheme + "://" + authority + repoPath + query)]
    {
      var el := At(owner.doc, path);
      var x := RepositoryElement(scheme, authority, repoPath, query);
      ListsAfterRepository(el.children, x, repositories, metadata, fileinfo, components, directcomponents);
      Store(WithChildren(el, el.children + [x]));
      repositories := repositories + [RepositoryOf(x)];
    }

    /** `addMetadata`: an `<item>` in the last `<metadata>` child (created when missing); the key now maps to the value. */
    method AddMetadata(key: string, value: string)
      requires Valid() && owner.Valid()
      modifies this`metadata, owner`doc
      ensures Valid() && owner.Valid()
      ensures var el := old(At(owner.doc, path));
              owner.doc == UpdateAt(old(owner.doc), path,
                                    WithChildren(el, AppendToGroup(el.children, "metadata", ItemElement(key, value))))
      ensures metadata == old(metadata)[key := value]
    {
      var el := At(owner.doc, path);
      ListsAfterMetadata(el.children, key, value, repositories, metadata, fileinfo, components, directcomponents);
      Store(WithChildren(el, AppendToGroup(el.children, "metadata", ItemElement(key, value))));
      metadata := metadata[key := value];
    }

    /** `addFile`: a `<file>` in the last `<fileinfo>` child (created when missing); the pair goes at the end of the list. */
    method AddFile(name: string, md5: string, size: Option<nat>)
      requires Valid() && owner.Valid()
      modifies this`fileinfo, owner`doc
      ensures Valid() && owner.Valid()
      ensures var el := old(At(owner.doc, path));
              owner.doc == UpdateAt(old(owner.doc), path,
                                    WithChildren(el, AppendToGroup(el.children, "fileinfo", FileElement(name, md5, size))))
      ensures fileinfo == old(fileinfo) + [FileEntry(name, md5)]
    {
      var el := At(owner.doc, path);
      var x := FileElement(name, md5, size);
      ListsAfterFile(el.children, x, repositories, metadata, fileinfo, components, directcomponents);
      Store(WithChildren(el, AppendToGroup(el.children, "fileinfo", x)));
      fileinfo := fileinfo + [FileEntry(name, md5)];
    }

    /**
     * `addComponent`: the builds of the manifest `source` (all, or those of `product`) are added
     * as components; their elements go into the last `<components>` child, made when missing.
     * `None` stands for a file that does not exist; a manifest that cannot be loaded changes nothing.
     */
    method AddComponent(source: Option<Node>, product: Option<string>) returns (r: Result<(), ManifestError>)
      requires Valid() && owner.Valid()
      requires source.Some? ==> source.value.Element?
      modifies this`components, owner`doc
      ensures Valid() && owner.Valid()
      ensures source.None? ==> r == Failure(SourceNotFound)
      ensures source.Some? && ParseManifest(source.value).Failure? ==> r == Failure(ParseManifest(source.value).error)
      ensures r.Success? <==> source.Some? && ParseManifest(source.value).Success?
      ensures r.Failure? ==> components == old(components) && owner.doc == old(owner.doc)
      ensures r.Success? ==>
                source.Some? && ParseManifest(source.value).Success? &&
                var sel := FilterBy(ParseManifest(source.value).value.builds, ProductOf, product);
                var el := old(At(owner.doc, path));
                components == old(components) + sel &&
                owner.doc == UpdateAt(old(owner.doc), path,
                                      WithChildren(el, AppendAllToGroup(el.children, "components", Elements(sel))))
    {
      if source.None? {
        return Failure(SourceNotFound);
      }
      var loaded := ParseManifest(source.value);
      if loaded.Failure? {
        return Failure(loaded.error);
      }
      var sel := FilterBy(loaded.value.builds, ProductOf, product);
      SelectedAreBuilds(source.value, product, sel);
      AppendComponents(sel);
      return Success(());
    }

    /** The selected builds join the `components` list and their elements the last `<components>` child. */
    method AppendComponents(sel: seq<BuildInfo>)
      requires Valid() && owner.Valid()
      requires forall j | 0 <= j < |sel| :: IsElement(sel[j].element, "build")
      modifies this`components, owner`doc
      ensures Valid() && owner.Valid()
      ensures var el := old(At(owner.doc, path));
              components == old(components) + sel &&
              owner.doc == UpdateAt(old(owner.doc), path, WithChildren(el, AppendAllToGroup(el.children, "components", Elements(sel))))
    {
      var el := At(owner.doc, path);
      var cs := AppendBuilds(el.children, "components", sel);
      ListsAfterComponents(el.children, sel, repositories, metadata, fileinfo, components, directcomponents);
      Store(WithChildren(el, cs));
      components := components + sel;
    }

    /** `addDirectComponent`: the same, for direct components and the last `<directcomponents>` child. */
    method AddDirectComponent(source: Option<Node>, product: Option<string>) returns (r: Result<(), ManifestError>)
      requires Valid() && owner.Valid()
      requires source.Some? ==> source.value.Element?
      modifies this`directcomponents, owner`doc
      ensures Valid() && owner.Valid()
      ensures source.None? ==> r == Failure(SourceNotFound)
      ensures source.Some? && ParseManifest(source.value).Failure? ==> r == Failure(ParseManifest(source.value).error)
      ensures r.Success? <==> source.Some? && ParseManifest(source.value).Success?
      ensures r.Failure? ==> directcomponents == old(directcomponents) && owner.doc == old(owner.doc)
      ensures r.Success? ==>
                source.Some? && ParseManifest(source.value).Success? &&
                var sel := FilterBy(ParseManifest(source.value).value.builds, ProductOf, product);
                var el := old(At(owner.doc, path));
                directcomponents == old(directcomponents) + sel &&
                owner.doc == UpdateAt(old(owner.doc), path,
                                      WithChildren(el, AppendAllToGroup(el.children, "directcomponents", Elements(sel))))
    {
      if source.None? {
        return Failure(SourceNotFound);
      }
      var loaded := ParseManifest(source.value);
      if loaded.Failure? {
        return Failure(loaded.error);
      }
      var sel := FilterBy(loaded.value.builds, ProductOf, product);
      SelectedAreBuilds(source.value, product, sel);
      AppendDirectComponents(sel);
      return Success(());
    }

    /** The selected builds join the `directcomponents` list and their elements the last `<directcomponents>` child. */
    method AppendDirectComponents(sel: seq<BuildInfo>)
      requires Valid() && owner.Valid()
      requires forall j | 0 <= j < |sel| :: IsElement(sel[j].element, "build")
      modifies this`directcomponents, owner`doc
      ensures Valid() && owner.Valid()
      ensures var el := old(At(owner.doc, path));
              directcomponents == old(directcomponents) + sel &&
              owner.doc == UpdateAt(old(owner.doc), path, WithChildren(el, AppendAllToGroup(el.children, "directcomponents", Elements(sel))))
    {
      var el := At(owner.doc, path);
      var cs := AppendBuilds(el.children, "directcomponents", sel);
      ListsAfterDirectComponents(el.children, sel, repositories, metadata, fileinfo, components, directcomponents);
      Store(WithChildren(el, cs));
      directcomponents := directcomponents + sel;
    }

    /**
     * The loop of `addComponent` and `addDirectComponent` over the child list: the `group`
     * child is made when missing, then the element of every selected build goes into it.
     */
    static method AppendBuilds(cs: seq<Node>, group: string, sel: seq<BuildInfo>) returns (out: seq<Node>)
      ensures out == AppendAllToGroup(cs, group, Elements(sel))
    {
      out := cs;
      if LastIndex(out, group) < 0 {
        out := cs + [Element(group, map[], [])];
      }
      var i := 0;
      assert sel[..0] == [];
      while i < |sel|
        invariant 0 <= i <= |sel|
        invariant out == AppendAllToGroup(cs, group, Elements(sel[..i]))
      {
        ElementsSnoc(sel[..i], sel[i]);
        assert sel[..i + 1] == sel[..i] + [sel[i]];
        AppendAllSnoc(cs, group, Elements(sel[..i]), sel[i].element);
        out := AppendToGroup(out, group, sel[i].element);
        i := i + 1;
      }
      assert sel[..i] == sel;
    }
  }
}
