/** The backend's registry of desktop proxies (`app/src-tauri/src/lib.rs`). */
module ProxyRegistry {
  import opened Basics

  /** `owner` is for the record: whose request bound the port. */
  datatype Proxy<Target, Owner> = Proxy(port: nat, target: Target, live: bool, owner: Owner)

  datatype Answer = Url(port: nat) | Refused

  /** The registry and the answer of `vnc_proxy_url`, where `bindable` is the port a new
      proxy would get, or nothing if it cannot be started. */
  function UrlSpec<T(==), O>(proxies: map<string, Proxy<T, O>>, name: string, target: T, bindable: Option<nat>,
                             owner: O)
    : (r: (map<string, Proxy<T, O>>, Answer))
    // A port handed out is that of a registered, live proxy for exactly this target.
    ensures r.1.Url? ==> name in r.0 && r.0[name].port == r.1.port && r.0[name].live && r.0[name].target == target
    // No other sandbox is touched, and a proxy already serving the target is kept.
    ensures forall n :: n != name ==> (n in r.0 <==> n in proxies) && (n in proxies ==> r.0[n] == proxies[n])
    ensures r.1.Refused? ==> r.0 == proxies
    // It is refused exactly when none serves the target and none can be started.
    ensures r.1.Refused? <==>
            !(name in proxies && proxies[name].target == target && proxies[name].live) && bindable.None?
    ensures r.1.Url? && !(name in proxies && proxies[name].target == target && proxies[name].live) ==>
              r.1.port == bindable.value && r.0[name].owner == owner
    ensures name in proxies && proxies[name].target == target && proxies[name].live ==>
              r.0 == proxies && r.1 == Url(proxies[name].port)
  {
    if name in proxies && proxies[name].target == target && proxies[name].live then (proxies, Url(proxies[name].port))
    else if bindable.None? then (proxies, Refused)
    else (proxies[name := Proxy(bindable.value, target, true, owner)], Url(bindable.value))
  }

  class Registry<T(==), O> {
    var proxies: map<string, Proxy<T, O>>

    constructor ()
      ensures proxies == map[]
    {
      proxies := map[];
    }

    method VncProxyUrl(name: string, target: T, bindable: Option<nat>, owner: O) returns (answer: Answer)
      modifies this
      ensures (proxies, answer) == UrlSpec(old(proxies), name, target, bindable, owner)
    {
      if name in proxies {
        var existing := proxies[name];
        if existing.target == target && existing.live {
          return Url(existing.port);
        }
      }
      if bindable.None? {
        return Refused;
      }
      proxies := proxies[name := Proxy(bindable.value, target, true, owner)];
      answer := Url(bindable.value);
    }

    method VncProxyStop(name: string)
      modifies this
      ensures proxies == old(proxies) - {name}
    {
      proxies := proxies - {name};
    }
  }
}
