/** The texture cache (engine/TextureManager.cpp): a path is decoded and uploaded the
    first time it is asked for, and its GL id is handed out from then on. Whether the
    image decodes and the id the GL hands out are the caller's to supply. */
module Textures {
  import opened Wrappers

  /** A GL texture name, a 32-bit unsigned integer; 0 names no texture. */
  newtype GLuint = x: int | 0 <= x < 0x1_0000_0000

  /** What one loadTexture call leaves behind: the id returned, the cache after it, and
      whether an image was decoded and uploaded. */
  datatype Loaded = Loaded(id: GLuint, cache: map<string, GLuint>, uploaded: bool)

  /** loadTexture on a cache: a cached path answers from the cache; otherwise the image
      is decoded, and on success `genId` (the id the GL generated) is uploaded, cached and
      returned, while a failed decode returns 0. */
  function Load(cache: map<string, GLuint>, path: string, decodeOk: bool, genId: GLuint): (r: Loaded)
    ensures r.uploaded <==> path !in cache && decodeOk
    ensures r.cache.Keys == if r.uploaded then cache.Keys + {path} else cache.Keys
    ensures forall p :: p in cache ==> p in r.cache && r.cache[p] == cache[p]
    ensures path in r.cache ==> r.id == r.cache[path]
    ensures path !in r.cache ==> r.id == 0
    ensures r.uploaded ==> r.id == genId
  {
    if path in cache then Loaded(cache[path], cache, false)
    else if !decodeOk then Loaded(0, cache, false)
    else Loaded(genId, cache[path := genId], true)
  }

  /** Once a path is cached, loading it again returns the same id, changes nothing and
      uploads nothing, whatever the decoder and the GL would do. */
  lemma LoadAgain(cache: map<string, GLuint>, path: string, decodeOk: bool, genId: GLuint, decodeOk2: bool, genId2: GLuint)
    requires Load(cache, path, decodeOk, genId).uploaded
    ensures var r := Load(cache, path, decodeOk, genId);
      Load(r.cache, path, decodeOk2, genId2) == Loaded(r.id, r.cache, false)
  {
  }

  class TextureManager {
    var textures: map<string, GLuint>
    /** The paths uploaded so far, in order. */
    ghost var uploads: seq<string>

    /** Every cached path was uploaded once, and nothing else was uploaded. */
    ghost predicate Valid()
      reads this
    {
      NoDup(uploads) && (forall p :: p in textures <==> p in uploads)
    }

    constructor ()
      ensures Valid() && textures == map[] && uploads == []
    {
      textures := map[];
      uploads := [];
    }

    /** loadTexture. */
    method LoadTexture(path: string, decodeOk: bool, genId: GLuint) returns (id: GLuint)
      requires Valid()
      modifies this
      ensures Valid()
      ensures Loaded(id, textures, |uploads| > |old(uploads)|) == Load(old(textures), path, decodeOk, genId)
      ensures uploads == old(uploads) || uploads == old(uploads) + [path]
    {
      if path in textures {
        return textures[path];
      }
      if !decodeOk {
        return 0;
      }
      textures := textures[path := genId];
      uploads := uploads + [path];
      return genId;
    }
  }
}
