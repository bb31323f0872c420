/**
 * The object store as the saver sees it: a bucket of byte objects that can
 * be probed, read and written. Whether a write goes through is decided by
 * the remote service, so each write is told whether it fails; this is how a
 * failing upload or hash write enters the model.
 */
module Store {
  import opened Wrappers
  import opened Text
  import opened Keys

  class ObjectStore {
    var objects: map<string, seq<byte>>
    /** The keys written so far, in the order the writes happened. */
    ghost var writes: seq<string>

    constructor (objects: map<string, seq<byte>>)
      ensures this.objects == objects && writes == []
    {
      this.objects := objects;
      writes := [];
    }

    /** `check_s3_file_exists`: a probe of the key, which changes nothing. */
    method Exists(key: string) returns (present: bool)
      ensures present <==> key in objects
    {
      present := key in objects;
    }

    /** `get_object`: the stored bytes, or `None` for a missing key. */
    method Get(key: string) returns (r: Option<seq<byte>>)
      ensures r.Some? <==> key in objects
      ensures r.Some? ==> r.value == objects[key]
    {
      r := if key in objects then Some(objects[key]) else None;
    }

    /**
     * `upload_file` / `put_object`: stores `data` at `key`, unless this write
     * fails, in which case nothing changes.
     */
    method Put(key: string, data: seq<byte>, fails: bool) returns (ok: bool)
      modifies this
      ensures ok <==> !fails
      ensures objects == if ok then old(objects)[key := data] else old(objects)
      ensures writes == if ok then old(writes) + [key] else old(writes)
    {
      ok := !fails;
      if ok {
        objects := objects[key := data];
        writes := writes + [key];
      }
    }

    /**
     * `generate_unique_s3_key`: probes the desired key, its timestamped form
     * and then the counted forms from 1 upward until one is free. It only
     * reads the store (it has no modifies clause).
     */
    method GenerateUniqueKey(desired: string, ts: string) returns (key: string)
      ensures key == AllocateKey(objects.Keys, desired, ts)
      ensures key !in objects
    {
      var taken := Exists(desired);
      if !taken {
        return desired;
      }
      key := StampedKey(desired, ts);
      taken := Exists(key);
      if taken {
        var counter := 1;
        while true
          invariant counter >= 1
          invariant forall i :: 1 <= i < counter ==> CountedKey(desired, ts, i) in objects
          invariant FirstFreeCounter(objects.Keys, desired, ts, counter) == FirstFreeCounter(objects.Keys, desired, ts, 1)
          decreases |objects.Keys| + 1 - counter
        {
          key := CountedKey(desired, ts, counter);
          taken := Exists(key);
          if !taken {
            break;
          }
          CountersBound(objects.Keys, desired, ts, counter);
          counter := counter + 1;
        }
      }
    }
  }
}
