/**
 * The srt settings editor: split a block into managed lists and three layers of extras,
 * serialize, and read back (lib/srt-block.ts, parseSrtSettings in lib/certificate-form.ts).
 */
module SrtBlock {
  import opened Prelude
  import opened Json

  type Fields = map<string, Value>

  datatype ManagedLists = ManagedLists(
    denyRead: seq<string>, allowRead: seq<string>, allowWrite: seq<string>, denyWrite: seq<string>,
    deniedDomains: seq<string>)

  datatype Parts = Parts(lists: ManagedLists, extras: Fields, fsExtras: Fields, netExtras: Fields)

  /** The submitted form field: empty, or JSON text standing for its value. */
  datatype Text = Blank | Json(value: Value)

  datatype Settings = Nothing | Block(fields: Fields) | NotAnObject

  const FS_KEYS: set<string> := {"denyRead", "allowRead", "allowWrite", "denyWrite"}
  const NET_KEYS: set<string> := {"deniedDomains"}

  function Get(o: Fields, k: string): Option<Value> {
    if k in o then Some(o[k]) else None
  }

  function StringsIn(items: seq<Value>): seq<string> {
    if items == [] then [] else (if items[0].Str? then [items[0].s] else []) + StringsIn(items[1..])
  }

  function AsStringArray(v: Option<Value>): seq<string> {
    if v.Some? && v.value.Arr? then StringsIn(v.value.items) else []
  }

  function AsObject(v: Option<Value>): Fields {
    if v.Some? && v.value.Obj? then v.value.fields else map[]
  }

  function SplitSrtBlock(block: Fields): Parts {
    var fs, net := AsObject(Get(block, "filesystem")), AsObject(Get(block, "network"));
    Parts(ManagedLists(AsStringArray(Get(fs, "denyRead")), AsStringArray(Get(fs, "allowRead")),
                       AsStringArray(Get(fs, "allowWrite")),
                       AsStringArray(Get(fs, "denyWrite")), AsStringArray(Get(net, "deniedDomains"))),
          block - {"filesystem", "network"}, fs - FS_KEYS, net - NET_KEYS)
  }

  function ListValue(l: seq<string>): Value {
    Arr(FromStrings(l))
  }

  function Filesystem(p: Parts): Fields {
    p.fsExtras + map["denyRead" := ListValue(p.lists.denyRead), "allowRead" := ListValue(p.lists.allowRead),
                     "allowWrite" := ListValue(p.lists.allowWrite), "denyWrite" := ListValue(p.lists.denyWrite)]
  }

  function Network(p: Parts): Fields {
    p.netExtras + map["deniedDomains" := ListValue(p.lists.deniedDomains)]
  }

  predicate EverythingEmpty(p: Parts) {
    && p.lists == ManagedLists([], [], [], [], [])
    && p.extras == map[] && p.fsExtras == map[] && p.netExtras == map[]
  }

  function SerializeSrtBlock(p: Parts): Text {
    if EverythingEmpty(p) then Blank
    else Json(Obj(p.extras + map["filesystem" := Obj(Filesystem(p)), "network" := Obj(Network(p))]))
  }

  function ParseSrtSettings(t: Text): Settings {
    match t
    case Blank => Nothing
    case Json(v) => if v.Obj? then Block(v.fields) else NotAnObject
  }

  /** One trip through the editor; no settings at all counts as an empty block. */
  function Edited(block: Fields): Fields {
    match ParseSrtSettings(SerializeSrtBlock(SplitSrtBlock(block)))
    case Block(fields) => fields
    case _ => map[]
  }

  // ---- one level: managed keys inside an object -----------------------------

  predicate IsStringList(v: Value) {
    v.Arr? && forall i :: 0 <= i < |v.items| ==> v.items[i].Str?
  }

  predicate Tidy(o: Fields, keys: set<string>) {
    forall k :: k in keys && k in o ==> IsStringList(o[k])
  }

  /** What editing makes of the object. */
  function Rebuilt(o: Fields, keys: set<string>): Fields {
    (o - keys) + map k | k in keys :: ListValue(AsStringArray(Get(o, k)))
  }

  /** An empty managed list says the same as an absent one. */
  function Slim(o: Fields, keys: set<string>): Fields {
    map k | k in o && !(k in keys && o[k] == Arr([])) :: o[k]
  }

  lemma {:induction false} ListsSurvive(items: seq<Value>)
    requires forall i :: 0 <= i < |items| ==> items[i].Str?
    ensures FromStrings(StringsIn(items)) == items
  {
    if items != [] {
      ListsSurvive(items[1..]);
      assert FromStrings(StringsIn(items)) == [items[0]] + FromStrings(StringsIn(items[1..]));
    }
  }

  lemma {:induction false} StringsOfList(l: seq<string>)
    ensures StringsIn(FromStrings(l)) == l
  {
    if l != [] {
      StringsOfList(l[1..]);
      assert FromStrings(l)[1..] == FromStrings(l[1..]);
    }
  }

  lemma RebuiltEntry(o: Fields, keys: set<string>, k: string)
    requires k in keys && k in o
    ensures k in Rebuilt(o, keys) && (IsStringList(o[k]) <==> Rebuilt(o, keys)[k] == o[k])
  {
    assert IsStringList(Rebuilt(o, keys)[k]);
    if IsStringList(o[k]) { ListsSurvive(o[k].items); }
  }

  lemma TidyIsKept(o: Fields, keys: set<string>)
    requires Tidy(o, keys)
    ensures Slim(Rebuilt(o, keys), keys) == Slim(o, keys)
  {
    forall k | k in keys && k in o ensures Rebuilt(o, keys)[k] == o[k] {
      RebuiltEntry(o, keys, k);
    }
    forall k | k in keys && k !in o ensures Rebuilt(o, keys)[k] == Arr([]) {
    }
  }

  lemma UntidyIsLost(o: Fields, keys: set<string>, k: string)
    requires k in keys && k in o && !IsStringList(o[k])
    ensures Slim(Rebuilt(o, keys), keys) != Slim(o, keys)
  {
    RebuiltEntry(o, keys, k);
    var slim, slim' := Slim(o, keys), Slim(Rebuilt(o, keys), keys);
    assert k in slim && slim[k] == o[k];
    assert k in slim' ==> slim'[k] == Rebuilt(o, keys)[k];
  }

  lemma RebuildKeepsExactly(o: Fields, keys: set<string>)
    ensures Slim(Rebuilt(o, keys), keys) == Slim(o, keys) <==> Tidy(o, keys)
  {
    if Tidy(o, keys) {
      TidyIsKept(o, keys);
    } else {
      var k :| k in keys && k in o && !IsStringList(o[k]);
      UntidyIsLost(o, keys, k);
    }
  }

  lemma RebuildTwice(o: Fields, keys: set<string>)
    ensures Rebuilt(Rebuilt(o, keys), keys) == Rebuilt(o, keys)
  {
    forall k | k in keys ensures AsStringArray(Get(Rebuilt(o, keys), k)) == AsStringArray(Get(o, k)) {
      StringsOfList(AsStringArray(Get(o, k)));
    }
  }

  lemma SlimOfEmpty(o: Fields, keys: set<string>)
    ensures Slim(Rebuilt(o, keys), keys) == map[]
            <==> o - keys == map[] && forall k :: k in keys ==> AsStringArray(Get(o, k)) == []
  {
    var s := Slim(Rebuilt(o, keys), keys);
    forall k | k in keys ensures k in s <==> AsStringArray(Get(o, k)) != [] {
      assert Rebuilt(o, keys)[k] == ListValue(AsStringArray(Get(o, k)));
    }
    forall k | k !in keys ensures k in s <==> k in o {
    }
    assert s == map[] <==> forall k :: k !in s;
    assert o - keys == map[] <==> forall k :: k !in o - keys;
  }

  // ---- the whole block ------------------------------------------------------

  /** A section counts only for what it says: one left with nothing is as good as absent. */
  function Section(block: Fields, name: string, keys: set<string>): Fields {
    match Get(block, name)
    case None => map[]
    case Some(Obj(o)) => if Slim(o, keys) == map[] then map[] else map[name := Obj(Slim(o, keys))]
    case Some(v) => map[name := v]
  }

  /** Blocks that mean the same have the same canonical form. */
  function Canonical(block: Fields): Fields {
    (block - {"filesystem", "network"}) + Section(block, "filesystem", FS_KEYS) + Section(block, "network", NET_KEYS)
  }

  predicate SectionTidy(block: Fields, name: string, keys: set<string>) {
    name in block ==> block[name].Obj? && Tidy(block[name].fields, keys)
  }

  predicate WellFormed(block: Fields) {
    SectionTidy(block, "filesystem", FS_KEYS) && SectionTidy(block, "network", NET_KEYS)
  }

  lemma FourKeys(o: Fields, a: string, b: string, c: string, d: string)
    ensures (o - {a, b, c, d}) + map[a := ListValue(AsStringArray(Get(o, a))), b := ListValue(AsStringArray(Get(o, b))),
                                     c := ListValue(AsStringArray(Get(o, c))), d := ListValue(AsStringArray(Get(o, d)))]
            == Rebuilt(o, {a, b, c, d})
  {
  }

  lemma OneKey(o: Fields, a: string)
    ensures (o - {a}) + map[a := ListValue(AsStringArray(Get(o, a)))] == Rebuilt(o, {a})
  {
  }

  lemma SectionsAreRebuilt(block: Fields)
    ensures Filesystem(SplitSrtBlock(block)) == Rebuilt(AsObject(Get(block, "filesystem")), FS_KEYS)
    ensures Network(SplitSrtBlock(block)) == Rebuilt(AsObject(Get(block, "network")), NET_KEYS)
  {
    FourKeys(AsObject(Get(block, "filesystem")), "denyRead", "allowRead", "allowWrite", "denyWrite");
    OneKey(AsObject(Get(block, "network")), "deniedDomains");
  }

  function FsOf(block: Fields): Fields { Rebuilt(AsObject(Get(block, "filesystem")), FS_KEYS) }

  function NetOf(block: Fields): Fields { Rebuilt(AsObject(Get(block, "network")), NET_KEYS) }

  lemma EditedFields(block: Fields)
    ensures var sections := map["filesystem" := Obj(FsOf(block)), "network" := Obj(NetOf(block))];
            Edited(block)
            == if EverythingEmpty(SplitSrtBlock(block)) then map[] else (block - {"filesystem", "network"}) + sections
  {
    SectionsAreRebuilt(block);
  }

  lemma SectionsGet(extras: Fields, fs: Value, net: Value)
    ensures var m := extras + map["filesystem" := fs, "network" := net];
            Get(m, "filesystem") == Some(fs) && Get(m, "network") == Some(net)
  {
  }

  lemma EditedGets(block: Fields)
    ensures EverythingEmpty(SplitSrtBlock(block)) ==> Edited(block) == map[]
    ensures !EverythingEmpty(SplitSrtBlock(block)) ==>
              && Get(Edited(block), "filesystem") == Some(Obj(FsOf(block)))
              && Get(Edited(block), "network") == Some(Obj(NetOf(block)))
  {
    EditedFields(block);
    SectionsGet(block - {"filesystem", "network"}, Obj(FsOf(block)), Obj(NetOf(block)));
  }

  lemma OneEntry(name: string, v: Value, w: Value)
    ensures map[name := v] == map[name := w] <==> v == w
    ensures map[name := v] != map[]
  {
    assert map[name := v][name] == v && map[name := w][name] == w;
    assert name in map[name := v];
  }

  /** One section survives exactly when it was tidy. */
  lemma SectionKeptExactly(e: Fields, block: Fields, name: string, keys: set<string>)
    requires var r := Rebuilt(AsObject(Get(block, name)), keys);
             Get(e, name) == Some(Obj(r)) || (Get(e, name) == None && Slim(r, keys) == map[])
    ensures Section(e, name, keys) == Section(block, name, keys) <==> SectionTidy(block, name, keys)
  {
    var o := AsObject(Get(block, name));
    var s := Slim(Rebuilt(o, keys), keys);
    assert Section(e, name, keys) == if s == map[] then map[] else map[name := Obj(s)];
    RebuildKeepsExactly(o, keys);
    if name in block && block[name].Obj? {
      OneEntry(name, Obj(Slim(o, keys)), Obj(s));
      OneEntry(name, Obj(s), Obj(s));
    } else if name in block {
      OneEntry(name, block[name], Obj(s));
    } else {
      assert o == map[] && Tidy(o, keys) && Slim(o, keys) == map[];
    }
  }

  lemma ExtrasKept(block: Fields)
    ensures Edited(block) - {"filesystem", "network"} == block - {"filesystem", "network"}
  {
    EditedFields(block);
  }

  lemma FourEmpty(o: Fields, keys: set<string>, a: string, b: string, c: string, d: string)
    requires keys == {a, b, c, d}
    ensures (forall k :: k in keys ==> AsStringArray(Get(o, k)) == [])
            <==> && AsStringArray(Get(o, a)) == [] && AsStringArray(Get(o, b)) == []
                 && AsStringArray(Get(o, c)) == [] && AsStringArray(Get(o, d)) == []
  {
  }

  lemma FourSlim(o: Fields, keys: set<string>, a: string, b: string, c: string, d: string)
    requires keys == {a, b, c, d}
    ensures Slim(Rebuilt(o, keys), keys) == map[]
            <==> && o - keys == map[] && AsStringArray(Get(o, a)) == [] && AsStringArray(Get(o, b)) == []
                 && AsStringArray(Get(o, c)) == [] && AsStringArray(Get(o, d)) == []
  {
    SlimOfEmpty(o, keys);
    FourEmpty(o, keys, a, b, c, d);
  }

  lemma FilesystemEmpty(block: Fields)
    ensures var p := SplitSrtBlock(block);
            Slim(FsOf(block), FS_KEYS) == map[]
            <==> && p.fsExtras == map[] && p.lists.denyRead == [] && p.lists.allowRead == []
                 && p.lists.allowWrite == [] && p.lists.denyWrite == []
  {
    FourSlim(AsObject(Get(block, "filesystem")), FS_KEYS, "denyRead", "allowRead", "allowWrite", "denyWrite");
  }

  lemma OneEmpty(o: Fields, a: string)
    ensures (forall k :: k in {a} ==> AsStringArray(Get(o, k)) == []) <==> AsStringArray(Get(o, a)) == []
  {
  }

  lemma NetworkEmpty(block: Fields)
    ensures var p := SplitSrtBlock(block);
            Slim(NetOf(block), NET_KEYS) == map[] <==> p.netExtras == map[] && p.lists.deniedDomains == []
  {
    var net := AsObject(Get(block, "network"));
    SlimOfEmpty(net, NET_KEYS);
    OneEmpty(net, "deniedDomains");
  }

  /** Nothing is submitted exactly when nothing is said. */
  lemma EmptyMeans(block: Fields)
    ensures EverythingEmpty(SplitSrtBlock(block))
            <==> && block - {"filesystem", "network"} == map[] && Slim(FsOf(block), FS_KEYS) == map[]
                 && Slim(NetOf(block), NET_KEYS) == map[]
  {
    FilesystemEmpty(block);
    NetworkEmpty(block);
  }

  function Restrict(m: Fields, name: string): Fields {
    if name in m then map[name := m[name]] else map[]
  }

  lemma SectionOf(a: Fields)
    ensures Restrict(Canonical(a), "filesystem") == Section(a, "filesystem", FS_KEYS)
    ensures Restrict(Canonical(a), "network") == Section(a, "network", NET_KEYS)
  {
  }

  lemma SectionsSeparate(a: Fields, b: Fields)
    requires a - {"filesystem", "network"} == b - {"filesystem", "network"}
    ensures Canonical(a) == Canonical(b)
            <==> && Section(a, "filesystem", FS_KEYS) == Section(b, "filesystem", FS_KEYS)
                 && Section(a, "network", NET_KEYS) == Section(b, "network", NET_KEYS)
  {
    SectionOf(a);
    SectionOf(b);
  }

  /**
   * A trip through the editor preserves the meaning of a block, unknown keys at all three
   * levels included, exactly when its sections are objects and its managed fields string lists.
   */
  lemma RoundTripExactly(block: Fields)
    ensures Canonical(Edited(block)) == Canonical(block) <==> WellFormed(block)
  {
    ExtrasKept(block);
    EditedGets(block);
    EmptyMeans(block);
    SectionKeptExactly(Edited(block), block, "filesystem", FS_KEYS);
    SectionKeptExactly(Edited(block), block, "network", NET_KEYS);
    SectionsSeparate(block, Edited(block));
  }

  lemma EditingKeepsSections(block: Fields)
    requires !EverythingEmpty(SplitSrtBlock(block))
    ensures FsOf(Edited(block)) == FsOf(block) && NetOf(Edited(block)) == NetOf(block)
  {
    EditedGets(block);
    RebuildTwice(AsObject(Get(block, "filesystem")), FS_KEYS);
    RebuildTwice(AsObject(Get(block, "network")), NET_KEYS);
  }

  lemma NothingStaysNothing()
    ensures Edited(map[]) == map[]
  {
    assert AsStringArray(None) == [];
  }

  /** Editing twice is editing once, for every block. */
  lemma SecondPassChangesNothing(block: Fields)
    ensures Edited(Edited(block)) == Edited(block)
  {
    var e := Edited(block);
    EditedFields(block);
    EditedFields(e);
    ExtrasKept(block);
    EmptyMeans(block);
    EmptyMeans(e);
    if EverythingEmpty(SplitSrtBlock(block)) {
      NothingStaysNothing();
    } else {
      EditingKeepsSections(block);
    }
  }

  // ---- the other way round --------------------------------------------------------

  /** A section with these lists under these names. */
  predicate Lists(fs: Fields, net: Fields, l: ManagedLists) {
    && Get(fs, "denyRead") == Some(Arr(FromStrings(l.denyRead)))
      && Get(fs, "allowRead") == Some(Arr(FromStrings(l.allowRead)))
    && Get(fs, "allowWrite") == Some(Arr(FromStrings(l.allowWrite)))
    && Get(fs, "denyWrite") == Some(Arr(FromStrings(l.denyWrite)))
    && Get(net, "deniedDomains") == Some(Arr(FromStrings(l.deniedDomains)))
  }

  /** The editor's lists are the block's, field by field. */
  lemma ListsAreRead(block: Fields, fs: Fields, net: Fields, l: ManagedLists)
    requires Get(block, "filesystem") == Some(Obj(fs)) && Get(block, "network") == Some(Obj(net)) && Lists(fs, net, l)
    ensures SplitSrtBlock(block).lists == l
  {
    StringsOfList(l.denyRead);
    StringsOfList(l.allowRead);
    StringsOfList(l.allowWrite);
    StringsOfList(l.denyWrite);
    StringsOfList(l.deniedDomains);
  }

  lemma ListsAreWritten(p: Parts)
    ensures Lists(Filesystem(p), Network(p), p.lists)
  {
  }

  /** Extras that hold none of the managed names, as splitting leaves them. */
  predicate Unmanaged(p: Parts) {
    && p.extras.Keys !! {"filesystem", "network"} && p.fsExtras.Keys !! FS_KEYS && p.netExtras.Keys !! NET_KEYS
  }

  lemma SplitIsUnmanaged(block: Fields)
    ensures Unmanaged(SplitSrtBlock(block))
  {
  }

  lemma ExtrasReturn(p: Parts, block: Fields)
    requires Unmanaged(p) && block == p.extras + map["filesystem" := Obj(Filesystem(p)), "network" := Obj(Network(p))]
    ensures block - {"filesystem", "network"} == p.extras
    ensures Filesystem(p) - FS_KEYS == p.fsExtras && Network(p) - NET_KEYS == p.netExtras
  {
  }

  /** What was serialized splits into the very parts it was made of. */
  lemma SplitAfterSerialize(p: Parts)
    requires Unmanaged(p) && !EverythingEmpty(p)
    ensures var s := ParseSrtSettings(SerializeSrtBlock(p));
            s.Block? && SplitSrtBlock(s.fields) == p
  {
    var block := p.extras + map["filesystem" := Obj(Filesystem(p)), "network" := Obj(Network(p))];
    SectionsGet(p.extras, Obj(Filesystem(p)), Obj(Network(p)));
    ListsAreWritten(p);
    ListsAreRead(block, Filesystem(p), Network(p), p.lists);
    ExtrasReturn(p, block);
  }
}
