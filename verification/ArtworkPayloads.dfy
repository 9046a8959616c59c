/** Which frames each artwork asset gets: converted from a new image, kept where they are,
    copied, or re-encoded from another frame. */
module ArtworkPayloads {
  import opened Outcomes
  import opened Bytes
  import opened ArtworkTypes
  import opened IthmbPlanner

  type Image = Bytes

  /** What the payload code asks of its surroundings. `known` are the formats with a definition,
      `sized` those with target dimensions; `sound` compares a frame's size with its geometry; a decode,
      encode or load that fails gives None, and so does a file that cannot be read. */
  datatype Surroundings = Surroundings(
    known: set<nat>,
    sized: set<nat>,
    present: string -> bool,
    sound: (nat, ExistingFormatRef) -> bool,
    read: (string, nat, nat) -> Option<Bytes>,
    decode: (nat, ExistingFormatRef, Bytes) -> Option<Image>,
    encode: (Image, nat) -> Option<FormatPayload>,
    load: Bytes -> Option<Image>
  ) {
    /** `_validate_existing_format_ref` and `_normalize_passthrough_format_ref` */
    predicate Usable(ref: ExistingFormatRef) {
      ref.size > 0 && present(ref.filename)
    }

    /** The frame's bytes, if the file has all of them. */
    function WholeFrame(ref: ExistingFormatRef): Option<Bytes> {
      var bytes := read(ref.filename, ref.offset, ref.size);
      if bytes.Some? && |bytes.value| == ref.size then bytes else None
    }

    /** Encoding `image` for `f`, where that is possible. */
    function EncodeFor(image: Image, f: nat): (r: Option<FormatPayload>)
      ensures r.Some? ==> r.value.Encoded?
    {
      if f !in sized then None
      else
        var e := encode(image, f);
        if e.Some? && e.value.Encoded? then e else None
    }
  }

  function PassthroughOf(ref: ExistingFormatRef): FormatPayload {
    Passthrough(ref.filename, ref.offset, ref.size, ref.width, ref.height, ref.hpad, ref.vpad)
  }

  function CopyOf(ref: ExistingFormatRef, data: Bytes): FormatPayload {
    Encoded(data, ref.size, ref.width, ref.height, ref.hpad, ref.vpad)
  }

  /** `known_present`: the known formats an entry has, usable or not. */
  function KnownPresent(env: Surroundings, e: Option<ExistingEntry>): set<nat> {
    if e.None? then {} else set f | f in e.value.formats && f in env.known
  }

  /** `unknown_passthrough` */
  function UnknownPassthrough(env: Surroundings, e: ExistingEntry): Payload {
    map f | f in e.formats && f !in env.known && env.Usable(e.formats[f]) :: PassthroughOf(e.formats[f])
  }

  /** `{**required_known, **extra_known}` */
  function KnownRefs(env: Surroundings, e: ExistingEntry): map<nat, ExistingFormatRef> {
    map f | f in e.formats && f in env.known && env.Usable(e.formats[f]) && env.sound(f, e.formats[f]) :: e.formats[f]
  }

  /** The formats an asset must have, by asset; `_collect_rewrite_targets`, first result. */
  function TargetsOf(env: Surroundings, decisions: seq<Decision>, required: set<nat>, asset: AssetRef): set<nat> {
    if decisions == [] then {}
    else
      var d := decisions[|decisions| - 1];
      TargetsOf(env, decisions[..|decisions| - 1], required, asset)
        + (if d.asset == Some(asset) then required + KnownPresent(env, d.existing) else {})
  }

  /** The unknown frames an asset keeps; `_collect_rewrite_targets`, second result. */
  function PassthroughFor(env: Surroundings, decisions: seq<Decision>, asset: AssetRef): Payload {
    if decisions == [] then map[]
    else
      var d := decisions[|decisions| - 1];
      PassthroughFor(env, decisions[..|decisions| - 1], asset)
        + (if d.Preserves() && d.asset == Some(asset) then UnknownPassthrough(env, d.existing.value) else map[])
  }

  datatype Targets = Targets(formats: map<AssetRef, set<nat>>, passthrough: map<AssetRef, Payload>) {
    function FormatsOf(a: AssetRef): set<nat> {
      if a in formats then formats[a] else {}
    }

    function PassthroughOf(a: AssetRef): Payload {
      if a in passthrough then passthrough[a] else map[]
    }
  }

  method CollectRewriteTargets(env: Surroundings, decisions: seq<Decision>, required: set<nat>) returns (t: Targets)
    ensures forall a :: t.FormatsOf(a) == TargetsOf(env, decisions, required, a)
    ensures forall a :: t.PassthroughOf(a) == PassthroughFor(env, decisions, a)
  {
    hide KnownPresent;
    hide UnknownPassthrough;
    t := Targets(map[], map[]);
    for i := 0 to |decisions|
      invariant forall a :: t.FormatsOf(a) == TargetsOf(env, decisions[..i], required, a)
      invariant forall a :: t.PassthroughOf(a) == PassthroughFor(env, decisions[..i], a)
    {
      var d := decisions[i];
      assert decisions[..i + 1][..i] == decisions[..i];
      if d.asset.Some? {
        var a := d.asset.value;
        t := t.(formats := t.formats[a := t.FormatsOf(a) + (required + KnownPresent(env, d.existing))]);
        if d.Preserves() {
          t := t.(passthrough := t.passthrough[a := t.PassthroughOf(a) + UnknownPassthrough(env, d.existing.value)]);
        }
      }
    }
    assert decisions[..|decisions|] == decisions;
  }

  lemma {:induction false} TargetsIncludeRequired(env: Surroundings, decisions: seq<Decision>, required: set<nat>, asset: AssetRef, i: nat)
    requires i < |decisions| && decisions[i].asset == Some(asset)
    ensures required <= TargetsOf(env, decisions, required, asset)
  {
    hide KnownPresent;
    var n := |decisions| - 1;
    if i < n {
      TargetsIncludeRequired(env, decisions[..n], required, asset, i);
    }
  }

  /** `_convert_one`: every target that can be encoded, or nothing if a required one cannot. */
  function Converted(env: Surroundings, bytes: Bytes, targets: set<nat>, required: set<nat>): Option<Payload> {
    var image := env.load(bytes);
    if image.None? then None
    else
      var formats := map f | f in targets && env.EncodeFor(image.value, f).Some? :: env.EncodeFor(image.value, f).value;
      if required <= formats.Keys then Some(formats) else None
  }

  method ConvertOne(env: Surroundings, bytes: Bytes, targets: set<nat>, required: set<nat>) returns (r: Option<Payload>)
    ensures r == Converted(env, bytes, targets, required)
  {
    var image := env.load(bytes);
    if image.None? {
      return None;
    }
    var formats: Payload := map[];
    var todo := targets;
    while todo != {}
      invariant todo <= targets
      invariant formats == map f | f in targets - todo && env.EncodeFor(image.value, f).Some? :: env.EncodeFor(image.value, f).value
      decreases todo
    {
      var f :| f in todo;
      var encoded := env.EncodeFor(image.value, f);
      if encoded.Some? {
        formats := formats[f := encoded.value];
      }
      todo := todo - {f};
    }
    assert targets - todo == targets;
    if !(required <= formats.Keys) {
      return None;
    }
    return Some(formats);
  }

  /** What a preserved asset carries over: unknown frames in place, known frames in place unless
      their shard is to be rewritten, and then as copies of the bytes that could be read. */
  function Carried(env: Surroundings, e: ExistingEntry, passthrough: Payload, rewrite: map<nat, string>): Payload {
    passthrough
      + (map f | f in KnownRefs(env, e) && CarriedFrame(env, e.formats[f], f, rewrite).Some? ::
           CarriedFrame(env, e.formats[f], f, rewrite).value)
  }

  function CarriedFrame(env: Surroundings, ref: ExistingFormatRef, f: nat, rewrite: map<nat, string>): Option<FormatPayload> {
    if !(f in rewrite && rewrite[f] == ref.filename) then Some(PassthroughOf(ref))
    else
      var bytes := env.WholeFrame(ref);
      if bytes.Some? then Some(CopyOf(ref, bytes.value)) else None
  }

  /** `image` is one of the entry's known frames, decoded. */
  ghost predicate DecodedFrom(env: Surroundings, e: ExistingEntry, image: Image) {
    exists f :: f in e.formats && f in env.known && env.WholeFrame(e.formats[f]).Some?
      && env.decode(f, e.formats[f], env.WholeFrame(e.formats[f]).value) == Some(image)
  }

  function Salvaged(env: Surroundings, carried: Payload, missing: set<nat>, image: Image): Payload {
    carried + map f | f in missing && env.EncodeFor(image, f).Some? :: env.EncodeFor(image, f).value
  }

  /** What `_load_preserved_art_payloads` may make of one preserved asset: what it carries if that
      is enough; otherwise the rest re-encoded from one of its frames; nothing if a required
      format still lacks. */
  ghost predicate PreservedAs(env: Surroundings, e: ExistingEntry, passthrough: Payload, rewrite: map<nat, string>,
                              targets: set<nat>, required: set<nat>, r: Option<Payload>)
  {
    var base := if KnownRefs(env, e) == map[] then passthrough else Carried(env, e, passthrough, rewrite);
    var missing := targets - base.Keys;
    if missing == {} then r == (if KnownRefs(env, e) == map[] || base == map[] then None else Some(base))
    else if forall image :: !DecodedFrom(env, e, image) then r == None
    else exists image :: DecodedFrom(env, e, image)
           && var formats := Salvaged(env, base, missing, image);
              r == if required <= formats.Keys then Some(formats) else None
  }

  /** The first frame that can be read whole and decoded, in whatever order they are tried. */
  method DecodeAny(env: Surroundings, e: ExistingEntry) returns (r: Option<Image>)
    ensures r.Some? ==> DecodedFrom(env, e, r.value)
    ensures r.None? ==> forall image :: !DecodedFrom(env, e, image)
  {
    var todo := e.formats.Keys;
    while todo != {}
      invariant todo <= e.formats.Keys
      invariant forall f | f in e.formats.Keys - todo && f in env.known && env.WholeFrame(e.formats[f]).Some? ::
        env.decode(f, e.formats[f], env.WholeFrame(e.formats[f]).value) == None
      decreases todo
    {
      var f :| f in todo;
      if f in env.known {
        var bytes := env.WholeFrame(e.formats[f]);
        if bytes.Some? {
          var image := env.decode(f, e.formats[f], bytes.value);
          if image.Some? {
            return image;
          }
        }
      }
      todo := todo - {f};
    }
    return None;
  }

  method CarryFrames(env: Surroundings, e: ExistingEntry, passthrough: Payload, rewrite: map<nat, string>) returns (r: Payload)
    ensures r == Carried(env, e, passthrough, rewrite)
  {
    hide CarriedFrame;
    hide CarriedOf;
    var refs := KnownRefs(env, e);
    r := passthrough;
    ghost var done: set<nat> := {};
    var todo := refs.Keys;
    CarriedNone(env, e, rewrite);
    while todo != {}
      invariant todo <= refs.Keys && done == refs.Keys - todo
      invariant r == passthrough + CarriedOf(env, e, rewrite, done)
      decreases todo
    {
      var f :| f in todo;
      var frame := CarriedFrame(env, e.formats[f], f, rewrite);
      CarriedMore(env, e, rewrite, done, f);
      if frame.Some? {
        assert passthrough + CarriedOf(env, e, rewrite, done)[f := frame.value] == r[f := frame.value];
        r := r[f := frame.value];
      }
      todo := todo - {f};
      done := done + {f};
    }
    CarriedAll(env, e, passthrough, rewrite, done);
  }

  /** What carrying over the formats `done` gives. */
  function CarriedOf(env: Surroundings, e: ExistingEntry, rewrite: map<nat, string>, done: set<nat>): Payload
    requires done <= e.formats.Keys
  {
    map f | f in done && CarriedFrame(env, e.formats[f], f, rewrite).Some? :: CarriedFrame(env, e.formats[f], f, rewrite).value
  }

  lemma CarriedNone(env: Surroundings, e: ExistingEntry, rewrite: map<nat, string>)
    ensures CarriedOf(env, e, rewrite, {}) == map[]
  {
  }

  lemma CarriedMore(env: Surroundings, e: ExistingEntry, rewrite: map<nat, string>, done: set<nat>, f: nat)
    requires done <= e.formats.Keys && f in e.formats && f !in done
    ensures var frame := CarriedFrame(env, e.formats[f], f, rewrite);
            CarriedOf(env, e, rewrite, done + {f})
            == if frame.Some? then CarriedOf(env, e, rewrite, done)[f := frame.value] else CarriedOf(env, e, rewrite, done)
  {
    hide CarriedFrame;
  }

  lemma CarriedAll(env: Surroundings, e: ExistingEntry, passthrough: Payload, rewrite: map<nat, string>, done: set<nat>)
    requires done == KnownRefs(env, e).Keys
    ensures passthrough + CarriedOf(env, e, rewrite, done) == Carried(env, e, passthrough, rewrite)
  {
    hide CarriedFrame;
  }

  method SalvageFrames(env: Surroundings, carried: Payload, missing: set<nat>, image: Image) returns (r: Payload)
    requires missing !! carried.Keys
    ensures r == Salvaged(env, carried, missing, image)
  {
    r := carried;
    var todo := missing;
    while todo != {}
      invariant todo <= missing
      invariant r == carried + map f | f in missing - todo && env.EncodeFor(image, f).Some? :: env.EncodeFor(image, f).value
      decreases todo
    {
      var f :| f in todo;
      var encoded := env.EncodeFor(image, f);
      if encoded.Some? {
        r := r[f := encoded.value];
      }
      todo := todo - {f};
    }
    assert missing - todo == missing;
  }

  method LoadPreserved(env: Surroundings, e: ExistingEntry, passthrough: Payload, rewrite: map<nat, string>,
                       targets: set<nat>, required: set<nat>) returns (r: Option<Payload>)
    ensures PreservedAs(env, e, passthrough, rewrite, targets, required, r)
  {
    hide KnownRefs;
    hide Carried;
    hide Salvaged;
    hide DecodedFrom;
    var known := KnownRefs(env, e);
    var base := passthrough;
    if known != map[] {
      base := CarryFrames(env, e, passthrough, rewrite);
    }
    var missing := targets - base.Keys;
    if missing == {} {
      return if known == map[] || base == map[] then None else Some(base);
    }
    var image := DecodeAny(env, e);
    if image.None? {
      return None;
    }
    var formats := SalvageFrames(env, base, missing, image.value);
    return if required <= formats.Keys then Some(formats) else None;
  }

  /** Whatever comes up short, a preserved asset that is kept has every required format. */
  lemma PreservedComplete(env: Surroundings, e: ExistingEntry, passthrough: Payload, rewrite: map<nat, string>,
                          targets: set<nat>, required: set<nat>, r: Option<Payload>)
    requires PreservedAs(env, e, passthrough, rewrite, targets, required, r) && required <= targets && r.Some?
    ensures required <= r.value.Keys
  {
    hide Carried;
    hide Salvaged;
    hide KnownRefs;
    hide DecodedFrom;
    var base := if KnownRefs(env, e) == map[] then passthrough else Carried(env, e, passthrough, rewrite);
    if targets - base.Keys == {} {
      assert forall f | f in targets :: f in base.Keys || f in targets - base.Keys;
    }
  }

  /** A kept asset's usable known frame stays where it is, or, when its shard is rewritten and the
      frame could be read, is copied byte for byte with the same geometry. */
  lemma PreservedFrame(env: Surroundings, e: ExistingEntry, passthrough: Payload, rewrite: map<nat, string>,
                       targets: set<nat>, required: set<nat>, r: Option<Payload>, f: nat)
    requires PreservedAs(env, e, passthrough, rewrite, targets, required, r) && r.Some?
    requires f in KnownRefs(env, e)
    ensures var ref := e.formats[f];
      && (!(f in rewrite && rewrite[f] == ref.filename) ==> f in r.value && r.value[f] == PassthroughOf(ref))
      && (f in rewrite && rewrite[f] == ref.filename && env.WholeFrame(ref).Some? ==>
            f in r.value && r.value[f] == CopyOf(ref, env.read(ref.filename, ref.offset, ref.size).value))
  {
    hide DecodedFrom;
    var frame := CarriedFrame(env, e.formats[f], f, rewrite);
    if frame.Some? {
      assert f in Carried(env, e, passthrough, rewrite);
    }
  }

  /** A converted asset has every required format, each freshly encoded. */
  lemma ConvertedComplete(env: Surroundings, bytes: Bytes, targets: set<nat>, required: set<nat>)
    requires Converted(env, bytes, targets, required).Some?
    ensures var r := Converted(env, bytes, targets, required).value;
            required <= r.Keys <= targets && forall f | f in r :: r[f].Encoded?
  {
  }

  /** The image a new asset is converted from: the last one given for it. */
  function ArtOf(decisions: seq<Decision>, asset: AssetRef): Option<Bytes> {
    if decisions == [] then None
    else
      var d := decisions[|decisions| - 1];
      if d.kind.NewFromPc? && d.asset == Some(asset) && d.art.Some? then d.art
      else ArtOf(decisions[..|decisions| - 1], asset)
  }

  /** The entry a preserved asset is taken from: the first that has it. */
  function FirstPreserved(decisions: seq<Decision>, asset: AssetRef): Option<ExistingEntry> {
    if decisions == [] then None
    else
      var d := decisions[|decisions| - 1];
      var before := FirstPreserved(decisions[..|decisions| - 1], asset);
      if before.Some? then before
      else if d.Preserves() && d.asset == Some(asset) then d.existing
      else None
  }

  /** The frames of one asset, and the size of the image they came from. */
  datatype Artwork = Artwork(formats: Payload, srcImgSize: nat)

  type Gallery = map<AssetRef, Artwork>

  function ArtworkOf(g: Gallery, asset: AssetRef): Option<Artwork> {
    if asset in g then Some(g[asset]) else None
  }

  /** The new frames of one asset. */
  function NewArtwork(env: Surroundings, decisions: seq<Decision>, required: set<nat>, asset: AssetRef): Option<Artwork> {
    var art := ArtOf(decisions, asset);
    if art.None? then None
    else
      var formats := Converted(env, art.value, TargetsOf(env, decisions, required, asset), required);
      if formats.Some? then Some(Artwork(formats.value, |art.value|)) else None
  }

  /** `_convert_new_pc_art` */
  method ConvertNewPcArt(env: Surroundings, decisions: seq<Decision>, targets: Targets, required: set<nat>) returns (g: Gallery)
    requires forall a :: targets.FormatsOf(a) == TargetsOf(env, decisions, required, a)
    ensures forall a :: ArtworkOf(g, a) == NewArtwork(env, decisions, required, a)
  {
    hide Converted;
    hide TargetsOf;
    var art: map<AssetRef, Bytes> := map[];
    for i := 0 to |decisions|
      invariant forall a :: (if a in art then Some(art[a]) else None) == ArtOf(decisions[..i], a)
    {
      var d := decisions[i];
      assert decisions[..i + 1][..i] == decisions[..i];
      if d.kind.NewFromPc? && d.asset.Some? && d.art.Some? {
        art := art[d.asset.value := d.art.value];
      }
    }
    assert decisions[..|decisions|] == decisions;
    g := map[];
    var todo := art.Keys;
    while todo != {}
      invariant todo <= art.Keys
      invariant forall a :: ArtworkOf(g, a) == if a in todo then None else NewArtwork(env, decisions, required, a)
      decreases todo
    {
      var a :| a in todo;
      var converted := ConvertOne(env, art[a], targets.FormatsOf(a), required);
      if converted.Some? {
        g := g[a := Artwork(converted.value, |art[a]|)];
      }
      todo := todo - {a};
    }
  }

  /** What preserving makes of one asset. */
  ghost predicate IsPreserved(env: Surroundings, decisions: seq<Decision>, rewrite: map<nat, string>, required: set<nat>,
                              asset: AssetRef, r: Option<Artwork>)
  {
    var e := FirstPreserved(decisions, asset);
    if e.None? then r == None
    else
      && PreservedAs(env, e.value, PassthroughFor(env, decisions, asset), rewrite, TargetsOf(env, decisions, required, asset), required,
                     if r.Some? then Some(r.value.formats) else None)
      && (r.Some? ==> r.value.srcImgSize == e.value.srcImgSize)
  }

  /** `_load_preserved_art_payloads` */
  method LoadPreservedArt(env: Surroundings, decisions: seq<Decision>, targets: Targets, rewrite: map<nat, string>, required: set<nat>)
    returns (g: Gallery)
    requires forall a :: targets.FormatsOf(a) == TargetsOf(env, decisions, required, a)
    requires forall a :: targets.PassthroughOf(a) == PassthroughFor(env, decisions, a)
    ensures forall a :: IsPreserved(env, decisions, rewrite, required, a, ArtworkOf(g, a))
  {
    hide PreservedAs;
    hide TargetsOf;
    hide PassthroughFor;
    var first: map<AssetRef, ExistingEntry> := map[];
    for i := 0 to |decisions|
      invariant forall a :: (if a in first then Some(first[a]) else None) == FirstPreserved(decisions[..i], a)
    {
      var d := decisions[i];
      assert decisions[..i + 1][..i] == decisions[..i];
      if d.Preserves() && d.asset.value !in first {
        first := first[d.asset.value := d.existing.value];
      }
    }
    assert decisions[..|decisions|] == decisions;
    g := map[];
    var todo := first.Keys;
    while todo != {}
      invariant todo <= first.Keys && todo !! g.Keys
      invariant forall a | a !in todo :: IsPreserved(env, decisions, rewrite, required, a, ArtworkOf(g, a))
      decreases todo
    {
      var a :| a in todo;
      var payload := LoadPreserved(env, first[a], targets.PassthroughOf(a), rewrite, targets.FormatsOf(a), required);
      ghost var before := g;
      if payload.Some? {
        g := g[a := Artwork(payload.value, first[a].srcImgSize)];
      }
      assert IsPreserved(env, decisions, rewrite, required, a, ArtworkOf(g, a));
      todo := todo - {a};
      assert forall b | b != a :: ArtworkOf(g, b) == ArtworkOf(before, b);
    }
  }

  /** Every asset that gets frames gets one for every required format, whichever reads came up
      short, decodes failed or encodes raised. */
  lemma GalleryComplete(env: Surroundings, decisions: seq<Decision>, rewrite: map<nat, string>, required: set<nat>,
                        asset: AssetRef, r: Option<Artwork>)
    requires r == NewArtwork(env, decisions, required, asset) || IsPreserved(env, decisions, rewrite, required, asset, r)
    requires r.Some?
    ensures required <= r.value.formats.Keys
  {
    hide PreservedAs;
    hide Converted;
    hide TargetsOf;
    if r == NewArtwork(env, decisions, required, asset) {
      ConvertedComplete(env, ArtOf(decisions, asset).value, TargetsOf(env, decisions, required, asset), required);
    } else {
      var i := PreservedFrom(decisions, asset);
      TargetsIncludeRequired(env, decisions, required, asset, i);
      PreservedComplete(env, FirstPreserved(decisions, asset).value, PassthroughFor(env, decisions, asset), rewrite,
                        TargetsOf(env, decisions, required, asset), required, Some(r.value.formats));
    }
  }

  lemma {:induction false} PreservedFrom(decisions: seq<Decision>, asset: AssetRef) returns (i: nat)
    requires FirstPreserved(decisions, asset).Some?
    ensures i < |decisions| && decisions[i].Preserves() && decisions[i].asset == Some(asset)
    ensures decisions[i].existing == FirstPreserved(decisions, asset)
    ensures forall j | 0 <= j < i :: decisions[j].Preserves() ==> decisions[j].asset != Some(asset)
  {
    var n := |decisions| - 1;
    if FirstPreserved(decisions[..n], asset).Some? {
      i := PreservedFrom(decisions[..n], asset);
    } else {
      i := n;
      forall j | 0 <= j < n ensures decisions[j].Preserves() ==> decisions[j].asset != Some(asset) {
        NonePreserved(decisions[..n], asset, j);
      }
    }
  }

  lemma {:induction false} NonePreserved(decisions: seq<Decision>, asset: AssetRef, j: nat)
    requires FirstPreserved(decisions, asset).None? && j < |decisions|
    ensures decisions[j].Preserves() ==> decisions[j].asset != Some(asset)
  {
    if j < |decisions| - 1 {
      NonePreserved(decisions[..|decisions| - 1], asset, j);
    }
  }
}
