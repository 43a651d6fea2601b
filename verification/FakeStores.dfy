/** The test double of jwttest: a plain map of revocations that keeps everything it is told. */
module FakeStores {
  import opened Wrappers
  import opened RevocationModel

  datatype FakeEntry = FakeEntry(reason: string, expiresAt: Expiry)

  type FakeEntries = map<string, FakeEntry>

  function FakeRevoke(f: FakeEntries, id: string, reason: string, expiresAt: Expiry): FakeEntries {
    f[id := FakeEntry(reason, expiresAt)]
  }

  /** An expired entry is dropped when it is asked for. */
  function FakeIsRevoked(f: FakeEntries, id: string, now: int): (bool, FakeEntries) {
    if id !in f then
      (false, f)
    else if !LiveAt(f[id].expiresAt, now) then
      (false, f - {id})
    else
      (true, f)
  }

  class FakeRevocationStore {
    var entries: FakeEntries
    var err: Option<string>

    constructor ()
      ensures entries == map[] && err == None
    {
      entries, err := map[], None;
    }

    method Revoke(id: string, reason: string, expiresAt: Expiry) returns (r: Result<(), string>)
      modifies this`entries
      ensures err.Some? ==> r == Err(err.value) && entries == old(entries)
      ensures err.None? ==> r == Ok(()) && entries == FakeRevoke(old(entries), id, reason, expiresAt)
    {
      if err.Some? {
        return Err(err.value);
      }
      entries := entries[id := FakeEntry(reason, expiresAt)];
      r := Ok(());
    }

    method IsRevoked(id: string, now: int) returns (r: Result<bool, string>)
      modifies this`entries
      ensures err.Some? ==> r == Err(err.value) && entries == old(entries)
      ensures err.None? ==> r.Ok? && (r.value, entries) == FakeIsRevoked(old(entries), id, now)
    {
      if err.Some? {
        return Err(err.value);
      }
      if id !in entries {
        return Ok(false);
      }
      if entries[id].expiresAt.At? && entries[id].expiresAt.time <= now {
        entries := entries - {id};
        return Ok(false);
      }
      r := Ok(true);
    }
  }
}
