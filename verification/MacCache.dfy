/** The in-memory MAC cache: for every network, the address each hardware address holds. */
module MacCache {
  import opened Basics

  type CacheState = map<NetName, map<Mac, Addr>>

  datatype CacheError = NoSuchNetwork | NoSuchMac

  /** `mac` now holds `ip` on network `name`. */
  function Remembered(cache: CacheState, name: NetName, mac: Mac, ip: Addr): CacheState
    requires name in cache
  {
    var macs: map<Mac, Addr> := cache[name][mac := ip];
    cache[name := macs]
  }

  function Forgotten(cache: CacheState, name: NetName, mac: Mac): CacheState
    requires name in cache
  {
    cache[name := cache[name] - {mac}]
  }

  class CacheAllocator {
    var cache: CacheState

    constructor ()
      ensures cache == map[]
    {
      cache := map[];
    }

    method NewMACSet(name: NetName)
      modifies this
      ensures cache == old(cache)[name := map[]]
    {
      cache := cache[name := map[]];
    }

    method DeleteMACSet(name: NetName)
      modifies this
      ensures cache == old(cache) - {name}
    {
      cache := cache - {name};
    }

    method AddMAC(name: NetName, mac: Mac, ip: Addr) returns (r: Result<(), CacheError>)
      modifies this
      ensures r.Ok? <==> name in old(cache)
      ensures r.Ok? ==> cache == Remembered(old(cache), name, mac, ip)
      ensures r.Err? ==> cache == old(cache)
    {
      if name !in cache {
        return Err(NoSuchNetwork);
      }
      var macs: map<Mac, Addr> := cache[name][mac := ip];
      cache := cache[name := macs];
      return Ok(());
    }

    method DeleteMAC(name: NetName, mac: Mac) returns (r: Result<(), CacheError>)
      modifies this
      ensures r.Ok? <==> name in old(cache)
      ensures r.Ok? ==> cache == Forgotten(old(cache), name, mac)
      ensures r.Err? ==> cache == old(cache)
    {
      if name !in cache {
        return Err(NoSuchNetwork);
      }
      cache := cache[name := cache[name] - {mac}];
      return Ok(());
    }

    method HasMAC(name: NetName, mac: Mac) returns (r: Result<bool, CacheError>)
      ensures r.Ok? <==> name in cache
      ensures r.Ok? ==> (r.value <==> mac in cache[name])
    {
      if name !in cache {
        return Err(NoSuchNetwork);
      }
      return Ok(mac in cache[name]);
    }

    method GetIPByMAC(name: NetName, mac: Mac) returns (r: Result<Addr, CacheError>)
      ensures r.Ok? <==> name in cache && mac in cache[name]
      ensures r.Ok? ==> r.value == cache[name][mac]
    {
      if name !in cache {
        return Err(NoSuchNetwork);
      }
      if mac !in cache[name] {
        return Err(NoSuchMac);
      }
      return Ok(cache[name][mac]);
    }
  }
}
