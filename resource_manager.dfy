/** The asset cache: a map from path to a shared resource handle, filled on demand by a loader
    that is a parameter here. */
module Resources {
  /** A texture as the loader hands it over; its pixels are not modelled. */
  datatype Texture = Texture(width: nat, height: nat)

  /** A loaded resource. Handles are shared, so a handle is a reference and two requests return
      the same handle exactly when they return the same reference. */
  class Resource {
    const texture: Texture

    constructor (t: Texture)
      ensures texture == t
    {
      texture := t;
    }
  }

  datatype ResourceError = UnknownExtension(extension: string) | LoadingError(message: string)

  datatype Result<T> = Ok(value: T) | Err(error: ResourceError)

  /** What loading a texture from a path comes to. */
  datatype LoadOutcome = Loaded(texture: Texture) | Failed(message: string)

  /** `char::to_uppercase` on ASCII letters; every other character is kept. */
  function Upper(c: char): (u: char)
    ensures 'a' <= c <= 'z' ==> u as int == c as int - 32
    ensures !('a' <= c <= 'z') ==> u == c
  {
    if 'a' <= c <= 'z' then (c as int - 32) as char else c
  }

  function UpperCase(s: string): (u: string)
    ensures |u| == |s| && forall i :: 0 <= i < |s| ==> u[i] == Upper(s[i])
  {
    if |s| == 0 then [] else UpperCase(s[..|s| - 1]) + [Upper(s[|s| - 1])]
  }

  /** The characters after the last `.`, or the whole path when it has none. */
  function AfterLastDot(path: string): string {
    if |path| == 0 || path[|path| - 1] == '.' then ""
    else AfterLastDot(path[..|path| - 1]) + [path[|path| - 1]]
  }

  /** The extension of a path: what follows its last `.`, uppercased. */
  function Extension(path: string): string {
    UpperCase(AfterLastDot(path))
  }

  /** The suffix after the last dot is a dot-free tail of the path, preceded by a dot unless it is
      the whole path. */
  lemma {:induction false} AfterLastDotIsTail(path: string)
    ensures var e := AfterLastDot(path);
      |e| <= |path| && e == path[|path| - |e|..] && '.' !in e &&
      (|e| < |path| ==> path[|path| - |e| - 1] == '.')
  {
    if |path| > 0 && path[|path| - 1] != '.' {
      var p, c := path[..|path| - 1], path[|path| - 1];
      var e := AfterLastDot(p);
      AfterLastDotIsTail(p);
      assert path == p + [c];
      assert AfterLastDot(path) == e + [c];
      assert path[|path| - |e| - 1..] == p[|p| - |e|..] + [c];
      assert |e| < |p| ==> path[|p| - |e| - 1] == p[|p| - |e| - 1];
    }
  }

  /** The extension of `stem.ext`, whatever the stem, is the uppercased `ext` when `ext` has no
      dot. */
  lemma {:induction false} ExtensionOf(stem: string, ext: string)
    requires '.' !in ext
    ensures Extension(stem + "." + ext) == UpperCase(ext)
  {
    AfterNamedDot(stem, ext);
  }

  lemma {:induction false} AfterNamedDot(stem: string, ext: string)
    requires '.' !in ext
    ensures AfterLastDot(stem + "." + ext) == ext
    decreases |ext|
  {
    var p := stem + "." + ext;
    if |ext| == 0 {
      assert p[|p| - 1] == '.';
    } else {
      var e := ext[..|ext| - 1];
      assert p[..|p| - 1] == stem + "." + e;
      assert '.' !in e by {
        assert forall i :: 0 <= i < |e| ==> e[i] == ext[i];
      }
      AfterNamedDot(stem, e);
      assert e + [ext[|ext| - 1]] == ext;
    }
  }

  /** A path without a dot is its own extension, uppercased. */
  lemma {:induction false} ExtensionWithoutDot(path: string)
    requires '.' !in path
    ensures Extension(path) == UpperCase(path)
  {
    AfterNamedDotless(path);
  }

  lemma {:induction false} AfterNamedDotless(path: string)
    requires '.' !in path
    ensures AfterLastDot(path) == path
  {
    if |path| > 0 {
      var p := path[..|path| - 1];
      assert '.' !in p by {
        assert forall i :: 0 <= i < |p| ==> p[i] == path[i];
      }
      AfterNamedDotless(p);
      assert p + [path[|path| - 1]] == path;
    }
  }

  /** `.png` and `.PNG` files are textures alike. */
  lemma PngAnyCase(stem: string)
    ensures Extension(stem + ".png") == "PNG" && Extension(stem + ".PNG") == "PNG"
    ensures Extension(stem + ".jpg") == "JPG"
  {
    ExtensionOf(stem, "png");
    ExtensionOf(stem, "PNG");
    ExtensionOf(stem, "jpg");
    UpperThree('p', 'n', 'g');
    UpperThree('P', 'N', 'G');
    UpperThree('j', 'p', 'g');
    assert stem + ".png" == stem + "." + "png";
    assert stem + ".PNG" == stem + "." + "PNG";
    assert stem + ".jpg" == stem + "." + "jpg";
  }

  lemma UpperThree(a: char, b: char, c: char)
    ensures UpperCase([a, b, c]) == [Upper(a), Upper(b), Upper(c)]
  {
  }

  /** The cache of resources already loaded, by path. */
  class ResourceManager {
    var resources: map<string, Resource>

    /** An empty cache. */
    constructor ()
      ensures resources == map[]
    {
      resources := map[];
    }

    /** The handle of the resource at `path`: the cached one if there is one; otherwise, for a
        PNG file, a new handle around what `load` yields, which is cached, and an error for any
        other extension or a failed load, which leave the cache as it was. */
    method Request(path: string, load: string -> LoadOutcome) returns (r: Result<Resource>)
      modifies this
      ensures path in old(resources) ==> r == Ok(old(resources)[path]) && resources == old(resources)
      ensures path !in old(resources) && Extension(path) != "PNG" ==>
        r == Err(UnknownExtension(Extension(path))) && resources == old(resources)
      ensures path !in old(resources) && Extension(path) == "PNG" && load(path).Failed? ==>
        r == Err(LoadingError(load(path).message)) && resources == old(resources)
      ensures path !in old(resources) && Extension(path) == "PNG" && load(path).Loaded? ==>
        r.Ok? && fresh(r.value) && r.value.texture == load(path).texture &&
        resources == old(resources)[path := r.value]
      ensures forall p :: p in old(resources) ==> p in resources && resources[p] == old(resources)[p]
      ensures r.Ok? ==> path in resources && resources[path] == r.value
    {
      if path in resources {
        return Ok(resources[path]);
      }
      var extension := Extension(path);
      if extension == "PNG" {
        match load(path) {
          case Loaded(t) =>
            var handle := new Resource(t);
            resources := resources[path := handle];
            r := Ok(resources[path]);
          case Failed(s) =>
            r := Err(LoadingError(s));
        }
      } else {
        r := Err(UnknownExtension(extension));
      }
    }
  }
}
