/** The client of one upstream registry: the URLs of a package's document
    and of one of its versions, and the classification of a request path
    into those two kinds of request. */
module RegistryClient {
  import opened Wrappers
  import opened Url
  import PosixPath
  import UriComponent

  /** A registry client: the registry's root URL. */
  datatype Client = Client(root: Url)

  /** `new RegistryClient(root)`: keeps the root URL without its fragment
      and query. */
  function NewClient(root: Url): (c: Client)
    ensures c.root.hash == [] && c.root.search == []
    ensures c.root.(hash := root.hash, search := root.search) == root
  {
    Client(root.(hash := [], search := []))
  }

  /** `getPackageRootURL(pkg)`: the root URL with the encoded package name
      joined onto its path. */
  function PackageRootUrl(c: Client, pkg: string): (r: Url)
    ensures r.(pathname := c.root.pathname) == c.root
  {
    c.root.(pathname := PosixPath.Join([c.root.pathname, UriComponent.Encode(pkg)]))
  }

  /** `getPackageVerisonURL(pkg, version)`: the root URL with the encoded
      package name and the encoded version joined onto its path. */
  function PackageVersionUrl(c: Client, pkg: string, version: string): (r: Url)
    ensures r.(pathname := c.root.pathname) == c.root
  {
    c.root.(pathname := PosixPath.Join([c.root.pathname, UriComponent.Encode(pkg), UriComponent.Encode(version)]))
  }

  /** What `classify(pathname)` makes of a request path: `null`, a request
      for a package's document, a request for one version, or a thrown
      URIError when a segment it decodes is malformed. */
  datatype Classification =
    | Unclassified
    | PackageRoot(pkg: string)
    | PackageVersion(pkg: string, version: string)
    | Malformed

  /** `RegistryClient.classify(pathname)`, with the package-name validator
      (`validForOldPackages`) as a parameter. The second segment is decoded
      before the number of segments is looked at; a path of one segment
      decodes the string "undefined", which never throws. */
  function Classify(pathname: string, validForOldPackages: string -> bool): (r: Classification)
    ensures r.PackageRoot? ==> validForOldPackages(r.pkg)
    ensures r.PackageRoot? || r.PackageVersion? ==> pathname != [] && pathname[0] == '/'
  {
    var segments := PosixPath.Split(pathname, '/');
    if segments[0] != [] then Unclassified
    else if |segments| < 2 then Unclassified
    else
      match UriComponent.Decode(segments[1])
      case None => Malformed
      case Some(pkg) =>
        if |segments| == 2 && validForOldPackages(pkg) then PackageRoot(pkg)
        else if |segments| == 3 then
          match UriComponent.Decode(segments[2])
          case None => Malformed
          case Some(version) => PackageVersion(pkg, version)
        else Unclassified
  }

  /** A path that does not start with '/' is never classified. */
  lemma ClassifyRelative(pathname: string, validForOldPackages: string -> bool)
    requires pathname != [] && pathname[0] != '/'
    ensures Classify(pathname, validForOldPackages) == Unclassified
  {
    var rest := PosixPath.Split(pathname[1..], '/');
    assert PosixPath.Split(pathname, '/')[0] == [pathname[0]] + rest[0];
  }

  /** The split of "/" followed by segments without '/'. */
  lemma SplitRooted(segments: seq<string>)
    requires |segments| >= 1
    requires forall i :: 0 <= i < |segments| ==> '/' !in segments[i]
    ensures PosixPath.Split("/" + PosixPath.JoinWith(segments, '/'), '/') == [[]] + segments
  {
    var joined := PosixPath.JoinWith(segments, '/');
    assert "/" + joined == [] + ['/'] + joined;
    PosixPath.SplitAround([], '/', joined);
    PosixPath.SplitJoinWith(segments, '/');
  }

  /** Any one-segment path whose segment decodes, in whatever encoding
      (npm asks for "/@types%2fnode"), is a request for the decoded
      package when that name is valid, and is not classified otherwise. */
  lemma ClassifyRootSegment(segment: string, validForOldPackages: string -> bool)
    requires '/' !in segment && UriComponent.Decode(segment).Some?
    ensures var pkg := UriComponent.Decode(segment).value;
      Classify("/" + segment, validForOldPackages) ==
        if validForOldPackages(pkg) then PackageRoot(pkg) else Unclassified
  {
    assert PosixPath.JoinWith([segment], '/') == segment;
    SplitRooted([segment]);
  }

  /** npm's request for a scoped package's document, with its lower-case
      escape of '/', is a request for "@types/node" when that name is
      valid. */
  lemma ClassifyScoped(validForOldPackages: string -> bool)
    ensures Classify("/" + "@types%2fnode", validForOldPackages) ==
      if validForOldPackages("@types/node") then PackageRoot("@types/node") else Unclassified
  {
    var segment := "@types%2fnode";
    assert '/' !in segment;
    UriComponent.DecodeScopedName();
    ClassifyRootSegment(segment, validForOldPackages);
  }

  /** Any two-segment path whose segments both decode is a request for
      the decoded package and version, without validating either. */
  lemma ClassifyVersionSegments(pkgSegment: string, versionSegment: string, validForOldPackages: string -> bool)
    requires '/' !in pkgSegment && '/' !in versionSegment
    requires UriComponent.Decode(pkgSegment).Some? && UriComponent.Decode(versionSegment).Some?
    ensures Classify("/" + pkgSegment + "/" + versionSegment, validForOldPackages) ==
      PackageVersion(UriComponent.Decode(pkgSegment).value, UriComponent.Decode(versionSegment).value)
  {
    var segments := [pkgSegment, versionSegment];
    assert segments[1..] == [versionSegment];
    assert PosixPath.JoinWith(segments, '/') == pkgSegment + "/" + versionSegment;
    SplitRooted(segments);
    assert "/" + pkgSegment + "/" + versionSegment == "/" + PosixPath.JoinWith(segments, '/');
  }

  /** A one-segment path classifies as the package it encodes, when the
      name is valid. */
  lemma {:induction false} ClassifyPackagePath(pkg: string, validForOldPackages: string -> bool)
    ensures Classify("/" + UriComponent.Encode(pkg), validForOldPackages) ==
      (if validForOldPackages(pkg) then PackageRoot(pkg) else Unclassified)
  {
    var encoded := UriComponent.Encode(pkg);
    UriComponent.EncodeAlphabet(pkg);
    assert PosixPath.JoinWith([encoded], '/') == encoded;
    SplitRooted([encoded]);
    UriComponent.DecodeEncode(pkg);
  }

  /** A two-segment path classifies as the package and version it encodes,
      whatever they are. */
  lemma {:induction false} ClassifyVersionPath(pkg: string, version: string, validForOldPackages: string -> bool)
    ensures Classify("/" + UriComponent.Encode(pkg) + "/" + UriComponent.Encode(version), validForOldPackages) ==
      PackageVersion(pkg, version)
  {
    var encodedPkg := UriComponent.Encode(pkg);
    var encodedVersion := UriComponent.Encode(version);
    UriComponent.EncodeAlphabet(pkg);
    UriComponent.EncodeAlphabet(version);
    var segments := [encodedPkg, encodedVersion];
    assert segments[1..] == [encodedVersion];
    assert PosixPath.JoinWith(segments, '/') == encodedPkg + "/" + encodedVersion;
    SplitRooted(segments);
    assert "/" + encodedPkg + "/" + encodedVersion == "/" + PosixPath.JoinWith(segments, '/');
    UriComponent.DecodeEncode(pkg);
    UriComponent.DecodeEncode(version);
  }

  /** The other shapes of a rooted path with segments `rest`: a malformed
      first segment throws whatever the number of segments; past that,
      four or more segments, or one segment naming an invalid package,
      are not classified. */
  lemma ClassifyShapes(rest: seq<string>, validForOldPackages: string -> bool)
    requires |rest| >= 1
    requires forall i :: 0 <= i < |rest| ==> '/' !in rest[i]
    ensures var r := Classify("/" + PosixPath.JoinWith(rest, '/'), validForOldPackages);
      && (UriComponent.Decode(rest[0]).None? ==> r == Malformed)
      && (UriComponent.Decode(rest[0]).Some? && |rest| >= 3 ==> r == Unclassified)
      && (UriComponent.Decode(rest[0]).Some? && |rest| == 1 && !validForOldPackages(UriComponent.Decode(rest[0]).value)
          ==> r == Unclassified)
      && (UriComponent.Decode(rest[0]).Some? && |rest| == 2 && UriComponent.Decode(rest[1]).None? ==> r == Malformed)
  {
    SplitRooted(rest);
  }

  /** A name the path joining keeps as one segment once encoded. */
  predicate Segment(name: string) {
    name != "" && name != "." && name != ".."
  }

  /** The encoding of such a name is a clean path segment. */
  lemma EncodeClean(name: string)
    requires Segment(name)
    ensures PosixPath.Clean(UriComponent.Encode(name))
  {
    var encoded := UriComponent.Encode(name);
    UriComponent.EncodeAlphabet(name);
    UriComponent.DecodeEncode(name);
    assert UriComponent.Decode([]) == Some([]);
    assert UriComponent.Decode(".") == Some(".") by {
      assert "."[0] != '%' && "."[1..] == [];
      assert UriComponent.Decode("."[1..]) == Some([]);
      assert ['.'] + [] == ".";
    }
    assert UriComponent.Decode("..") == Some("..") by {
      assert ".."[0] != '%' && ".."[1..] == ".";
      assert UriComponent.Decode(".") == Some(".") by {
        assert "."[0] != '%' && "."[1..] == [];
        assert UriComponent.Decode("."[1..]) == Some([]);
        assert ['.'] + [] == ".";
      }
      assert ['.'] + "." == "..";
    }
  }

  /** Under a root whose path is made of clean segments, the package URL's
      path is the root's segments followed by the encoded name, and the
      version URL's path adds the encoded version. */
  lemma PackageUrlPaths(c: Client, base: seq<string>, baseTrailing: bool, pkg: string, version: string)
    requires forall i :: 0 <= i < |base| ==> PosixPath.Clean(base[i])
    requires c.root.pathname == PosixPath.Absolute(base, baseTrailing)
    requires Segment(pkg) && Segment(version)
    ensures PackageRootUrl(c, pkg).pathname == PosixPath.Absolute(base + [UriComponent.Encode(pkg)], false)
    ensures PackageVersionUrl(c, pkg, version).pathname ==
      PosixPath.Absolute(base + [UriComponent.Encode(pkg), UriComponent.Encode(version)], false)
  {
    EncodeClean(pkg);
    EncodeClean(version);
    var encodedPkg := UriComponent.Encode(pkg);
    var encodedVersion := UriComponent.Encode(version);
    PosixPath.JoinSegmentsUnder(base, baseTrailing, [encodedPkg]);
    PosixPath.JoinSegmentsUnder(base, baseTrailing, [encodedPkg, encodedVersion]);
    assert [c.root.pathname, encodedPkg] == [PosixPath.Absolute(base, baseTrailing)] + [encodedPkg];
    assert [c.root.pathname, encodedPkg, encodedVersion] ==
      [PosixPath.Absolute(base, baseTrailing)] + [encodedPkg, encodedVersion];
  }

  /** Under a root served at "/", the package URL's path is "/" and the
      encoded name. */
  lemma RootPackagePath(c: Client, baseTrailing: bool, pkg: string, version: string)
    requires c.root.pathname == PosixPath.Absolute([], baseTrailing)
    requires Segment(pkg) && Segment(version)
    ensures PackageRootUrl(c, pkg).pathname == "/" + UriComponent.Encode(pkg)
  {
    PackageUrlPaths(c, [], baseTrailing, pkg, version);
    var encodedPkg := UriComponent.Encode(pkg);
    assert [] + [encodedPkg] == [encodedPkg];
    assert PosixPath.JoinWith([encodedPkg], '/') == encodedPkg;
  }

  /** Under a root served at "/", the version URL's path is "/", the
      encoded name, "/" and the encoded version. */
  lemma RootVersionPath(c: Client, baseTrailing: bool, pkg: string, version: string)
    requires c.root.pathname == PosixPath.Absolute([], baseTrailing)
    requires Segment(pkg) && Segment(version)
    ensures PackageVersionUrl(c, pkg, version).pathname ==
      "/" + UriComponent.Encode(pkg) + "/" + UriComponent.Encode(version)
  {
    PackageUrlPaths(c, [], baseTrailing, pkg, version);
    var p, v := UriComponent.Encode(pkg), UriComponent.Encode(version);
    var both := [p, v];
    assert [] + both == both;
    assert both[1..] == [v];
    assert PosixPath.JoinWith(both[1..], '/') == v;
    var joined := PosixPath.JoinWith(both, '/');
    assert joined == both[0] + ['/'] + PosixPath.JoinWith(both[1..], '/');
    calc {
      PackageVersionUrl(c, pkg, version).pathname;
      "/" + joined + "";
      "/" + (p + "/" + v);
      "/" + p + "/" + v;
    }
  }

  /** A gateway served at the root classifies the paths of the URLs a
      client builds back into the request they were built for. */
  lemma ClassifyClientUrls(c: Client, baseTrailing: bool, pkg: string, version: string,
                           validForOldPackages: string -> bool)
    requires c.root.pathname == PosixPath.Absolute([], baseTrailing)
    requires Segment(pkg) && Segment(version)
    ensures Classify(PackageVersionUrl(c, pkg, version).pathname, validForOldPackages) == PackageVersion(pkg, version)
    ensures validForOldPackages(pkg) ==>
      Classify(PackageRootUrl(c, pkg).pathname, validForOldPackages) == PackageRoot(pkg)
  {
    RootPackagePath(c, baseTrailing, pkg, version);
    ClassifyPackagePath(pkg, validForOldPackages);
    RootVersionPath(c, baseTrailing, pkg, version);
    ClassifyVersionPath(pkg, version, validForOldPackages);
  }
}
