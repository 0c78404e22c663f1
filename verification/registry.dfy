/**
  `ExtensionFormatterRegistry` (pynocle/utils.py:82-96): a dictionary from
  file extensions to formatter constructors, with overwriting registration,
  lookup with a default, and a factory that binds keyword options.

  Constructors are values of a type parameter `C`. Python's `None` is
  `Option.None`. A `truthy` predicate stands for Python truthiness of a
  registered value (a class is always true; a registered `0` or `''` is not).
  Keyword options are a map from names to values of a type parameter `A`.
 */
module Registry {
  import opened Wrappers
  import opened Dicts

  datatype Registry<C> = Registry(mapping: map<string, C>)

  /** What `GetFormatterFactory` returns: the lookup result itself when it is
      false, or the closure `lambda stream: result(stream, **kwargs)`. */
  datatype Factory<C, A> = Unbound(result: Option<C>) | Bound(ctor: C, kwargs: map<string, A>)

  /** A constructor call `ctor(stream, **kwargs)`. */
  datatype Construction<C, S, A> = Construction(ctor: C, stream: S, kwargs: map<string, A>)

  /** `ExtensionFormatterRegistry(mapping)`: the pairs in order, a later pair
      for the same extension replacing an earlier one. */
  function New<C>(pairs: seq<(string, C)>): (r: Registry<C>)
    ensures r.mapping.Keys == Keys(pairs)
    ensures forall i :: 0 <= i < |pairs| && LastWithKey(pairs, i) ==> r.mapping[pairs[i].0] == pairs[i].1
  {
    forall i | 0 <= i < |pairs| && LastWithKey(pairs, i) ensures FromPairs(pairs)[pairs[i].0] == pairs[i].1 {
      FromPairsLastWins(pairs, i);
    }
    Registry(FromPairs(pairs))
  }

  /** `Register(ext, value)`. */
  function Register<C>(reg: Registry<C>, ext: string, value: C): (r: Registry<C>)
    ensures r.mapping.Keys == reg.mapping.Keys + {ext}
    ensures r.mapping[ext] == value
    ensures forall e :: e in reg.mapping && e != ext ==> r.mapping[e] == reg.mapping[e]
  {
    Registry(reg.mapping[ext := value])
  }

  /** `GetFormatter(ext, default)`. */
  function GetFormatter<C>(reg: Registry<C>, ext: string, default: Option<C>): (r: Option<C>)
    ensures ext in reg.mapping ==> r == Some(reg.mapping[ext])
    ensures ext !in reg.mapping ==> r == default
  {
    if ext in reg.mapping then Some(reg.mapping[ext]) else default
  }

  /** `GetFormatterFactory(ext, default, **kwargs)`. */
  function GetFormatterFactory<C, A>(reg: Registry<C>, ext: string, default: Option<C>,
                                     kwargs: map<string, A>, truthy: C -> bool): (f: Factory<C, A>)
    ensures f.Unbound? <==> GetFormatter(reg, ext, default).None? || !truthy(GetFormatter(reg, ext, default).value)
    ensures f.Unbound? ==> f.result == GetFormatter(reg, ext, default)
    ensures f.Bound? ==> GetFormatter(reg, ext, default) == Some(f.ctor) && f.kwargs == kwargs
  {
    var result := GetFormatter(reg, ext, default);
    if result.None? || !truthy(result.value) then Unbound(result)
    else Bound(result.value, kwargs)
  }

  /** Calling the closure on a stream. */
  function Apply<C, S, A>(f: Factory<C, A>, stream: S): (c: Construction<C, S, A>)
    requires f.Bound?
    ensures c.stream == stream
  {
    Construction(f.ctor, stream, f.kwargs)
  }

  /** After registering `v` for `ext`, looking `ext` up gives `v` whatever the
      default, and every other extension looks up as before. */
  lemma RegisterThenGet<C>(reg: Registry<C>, ext: string, v: C, other: string, default: Option<C>)
    ensures GetFormatter(Register(reg, ext, v), ext, default) == Some(v)
    ensures other != ext ==> GetFormatter(Register(reg, ext, v), other, default) == GetFormatter(reg, other, default)
  {
  }

  /** Registering twice for the same extension keeps only the second value. */
  lemma RegisterOverwrites<C>(reg: Registry<C>, ext: string, v1: C, v2: C)
    ensures Register(Register(reg, ext, v1), ext, v2) == Register(reg, ext, v2)
  {
  }

  /** A factory obtained for a registered, true constructor builds that
      constructor on the stream with the bound options. */
  lemma FactoryBuilds<C, S, A>(reg: Registry<C>, ext: string, default: Option<C>,
                               kwargs: map<string, A>, truthy: C -> bool, stream: S)
    requires ext in reg.mapping && truthy(reg.mapping[ext])
    ensures GetFormatterFactory(reg, ext, default, kwargs, truthy).Bound?
    ensures Apply(GetFormatterFactory(reg, ext, default, kwargs, truthy), stream)
         == Construction(reg.mapping[ext], stream, kwargs)
  {
  }

  /** For a missing extension, the factory is built from the default, and a
      missing default gives `None` back. */
  lemma MissingUsesDefault<C, A>(reg: Registry<C>, ext: string, kwargs: map<string, A>, truthy: C -> bool)
    requires ext !in reg.mapping
    ensures GetFormatterFactory(reg, ext, None, kwargs, truthy) == Unbound(None)
  {
  }
}
