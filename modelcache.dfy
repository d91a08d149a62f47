/**
 * The process-wide cache of speech-to-text models (`MODEL_CACHE` and
 * `get_model`). A handle is opaque (the type parameter `H`); the loader
 * (`whisper.load_model`) is a function handed in by the caller, which
 * either builds a handle or fails with the exception's message.
 */
module ModelCaching {
  import opened Outcomes

  class ModelCache<H> {
    /** The cached handles, keyed by model name. */
    var models: map<string, H>
    /** Every call of the loader, in order, whether it succeeded or not. */
    ghost var loaderCalls: seq<string>
    /** The names whose handle the loader built, in order. */
    ghost var built: seq<string>
    /**
     * The audio inputs of every `transcribe_audio` run, in order. The cache
     * is the only state the core keeps, so it also carries this log of the
     * transcription stage.
     */
    ghost var transcribed: seq<string>

    /**
     * Each cached handle was built exactly once, the cache holds exactly the
     * handles built, and nothing was built without a loader call.
     */
    ghost predicate Valid()
      reads this
    {
      && (forall i, j :: 0 <= i < j < |built| ==> built[i] != built[j])
      && (forall name :: name in models <==> name in built)
      && (forall name :: name in built ==> name in loaderCalls)
    }

    /** The empty cache the module starts with (`MODEL_CACHE = {}`). */
    constructor ()
      ensures Valid()
      ensures models == map[] && loaderCalls == [] && built == [] && transcribed == []
    {
      models := map[];
      loaderCalls := [];
      built := [];
      transcribed := [];
    }

    /** What `get_model(name)` yields in the current state. */
    function Lookup(name: string, load: string -> Result<H>): Result<H>
      reads this
    {
      if name in models then Ok(models[name]) else load(name)
    }

    /**
     * `get_model(name)`: a cached handle is returned without calling the
     * loader; otherwise the loader is called once, and a handle it builds is
     * added under `name` and nothing else changes; a failure leaves the
     * cache as it was.
     */
    method GetModel(name: string, load: string -> Result<H>) returns (r: Result<H>)
      requires Valid()
      modifies this
      ensures Valid()
      ensures r == old(Lookup(name, load))
      ensures r.Ok? ==> name in models && models[name] == r.value
      ensures name in old(models) ==>
                models == old(models) && loaderCalls == old(loaderCalls) && built == old(built)
      ensures name !in old(models) ==> loaderCalls == old(loaderCalls) + [name]
      ensures name !in old(models) && r.Ok? ==>
                models == old(models)[name := r.value] && built == old(built) + [name]
      ensures name !in old(models) && r.Err? ==> models == old(models) && built == old(built)
      ensures transcribed == old(transcribed)
    {
      if name !in models {
        r := load(name);
        loaderCalls := loaderCalls + [name];
        if r.Ok? {
          models := models[name := r.value];
          built := built + [name];
        }
        return;
      }
      r := Ok(models[name]);
    }
  }

  /**
   * Two requests for the same model: the second is served from the cache,
   * returns the same handle and does not call the loader again.
   */
  method GetModelTwice<H>(cache: ModelCache<H>, name: string, load: string -> Result<H>)
    returns (first: Result<H>, second: Result<H>)
    requires cache.Valid()
    modifies cache
    ensures cache.Valid()
    ensures first.Ok? ==> second == first
    ensures first.Ok? ==> |cache.loaderCalls| <= |old(cache.loaderCalls)| + 1
  {
    first := cache.GetModel(name, load);
    second := cache.GetModel(name, load);
  }
}
