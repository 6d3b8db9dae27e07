/// The `tt` command: its validity rules, what one execution does to the
/// store of truth tables, and the log entry it leaves.
module TtCommand {
  import opened Wrappers
  import opened Bits
  import opened Codec
  import opened Generators
  import opened Stores

  /// The options of one invocation; an option that was not given is `None`.
  datatype Options = Options(
    load: Option<string>,
    random: Option<nat>,
    hwb: Option<nat>,
    maj: Option<nat>,
    prime: Option<nat>,
    extend: Option<nat>,
    shrink: Option<nat>,
    swap: Option<string>)

  /// Routines the command calls whose definitions lie outside it:
  /// `convert_hex2bin`, `tt_extend`, `tt_shrink`, `tt_permute`,
  /// `split_string_pair` and the random source behind `random_bitset`.
  datatype Env = Env(
    hex2bin: string -> string,
    ttExtend: (Bits, nat) -> Bits,
    ttShrink: (Bits, nat) -> Bits,
    ttPermute: (Bits, nat, nat) -> Bits,
    splitPair: string -> (string, string),
    randomBitset: nat -> Bits)

  /// One selected action, as the user states it.
  datatype Action =
    | Load(text: string)
    | Extend(bits: nat)
    | Shrink(bits: nat)
    | Random(bits: nat)
    | Hwb(bits: nat)
    | Maj(bits: nat)
    | Prime(bits: nat)
    | Swap(text: string)

  function Flag(b: bool): nat
  {
    if b then 1 else 0
  }

  /// How many of the eight actions are selected.
  function ActionCount(o: Options): nat
  {
    Flag(o.load.Some?) + Flag(o.extend.Some?) + Flag(o.shrink.Some?) + Flag(o.swap.Some?) +
    Flag(o.random.Some?) + Flag(o.hwb.Some?) + Flag(o.maj.Some?) + Flag(o.prime.Some?)
  }

  /// The first selected action, in the order `execute` tests them.
  function Chosen(o: Options): Action
    requires ActionCount(o) >= 1
  {
    if o.load.Some? then Load(o.load.value)
    else if o.extend.Some? then Extend(o.extend.value)
    else if o.shrink.Some? then Shrink(o.shrink.value)
    else if o.random.Some? then Random(o.random.value)
    else if o.hwb.Some? then Hwb(o.hwb.value)
    else if o.maj.Some? then Maj(o.maj.value)
    else if o.prime.Some? then Prime(o.prime.value)
    else Swap(o.swap.value)
  }

  /// What an action needs besides being the only one: a current table for
  /// the three transformations, an odd width for MAJ, at most 10 bits for
  /// PRIME.
  predicate Admissible(a: Action, currentIndex: int)
  {
    match a
    case Extend(_) => currentIndex >= 0
    case Shrink(_) => currentIndex >= 0
    case Swap(_) => currentIndex >= 0
    case Maj(m) => m % 2 == 1
    case Prime(p) => p <= 10
    case _ => true
  }

  /// The validity rules, checked in order; the messages of those that fail.
  /// None fails exactly when one action is selected and it is admissible.
  function Violations(o: Options, currentIndex: int): (r: seq<string>)
    ensures r == [] <==> ActionCount(o) == 1 && Admissible(Chosen(o), currentIndex)
  {
    (if o.load.Some? || o.random.Some? || o.hwb.Some? || o.maj.Some? || o.prime.Some? || currentIndex >= 0
     then [] else ["no current truth table available"]) +
    (if o.maj.None? || o.maj.value % 2 == 1 then [] else ["argument to maj must be odd"]) +
    (if o.prime.None? || o.prime.value <= 10 then [] else ["argument to prime cannot be larger than 10"]) +
    (if ActionCount(o) == 1 then [] else ["only one option at a time"])
  }

  /// What one execution does to the store.
  datatype Effect =
    | Push(table: Bits)      // `extend()`, then the new slot is set to `table`
    | Replace(table: Bits)   // the current slot is overwritten with `table`
    | NoOp                   // returns without touching the store
    | BadLexicalCast         // a number did not parse; the exception leaves the store untouched

  predicate HasPrefix(text: string, c: char)
  {
    |text| >= 2 && text[0] == '0' && text[1] == c
  }

  /// The `--load` branch.  `0x` text is widened by `convert_hex2bin`;
  /// `0d<n>:<v>` text becomes the binary text of `dynamic_bitset(2^n, v)`;
  /// any other text is read as binary.
  function LoadEffect(text: string, env: Env): (e: Effect)
    ensures !e.Replace?
    ensures e.NoOp? <==> !HasPrefix(text, 'x') && HasPrefix(text, 'd') && ':' !in text
    ensures e.BadLexicalCast? ==> HasPrefix(text, 'd')
    ensures !HasPrefix(text, 'x') && !HasPrefix(text, 'd') ==>
      e.Push? && |e.table| == |text| &&
      forall i :: 0 <= i < |text| ==> e.table[i] == (text[|text| - 1 - i] == '1')
  {
    if HasPrefix(text, 'x') then
      Push(ParseBinary(env.hex2bin(text[2..])))
    else if HasPrefix(text, 'd') then
      match Find(text, ':')
      case None => NoOp
      case Some(col) => DecimalFieldsEffect(text, col)
    else
      Push(ParseBinary(text))
  }

  /// The `0d<n>:<v>` text with its ':' at `col`: both fields are cast, and
  /// the binary text of `dynamic_bitset(2^n, v)` is loaded.
  function DecimalFieldsEffect(text: string, col: nat): (e: Effect)
    requires 2 <= col < |text|
    ensures e.Push? || e.BadLexicalCast?
    ensures e.Push? <==> ParseDecimal(text[2..col]).Some? && ParseDecimal(text[col + 1..]).Some?
    ensures e.Push? ==>
      e.table == FromNat(ParseDecimal(text[col + 1..]).value, Pow2(ParseDecimal(text[2..col]).value))
  {
    var numVars := ParseDecimal(text[2..col]);
    var func := ParseDecimal(text[col + 1..]);
    if numVars.None? || func.None? then BadLexicalCast
    else
      var t := FromNat(func.value, Pow2(numVars.value));
      ParseToBinaryString(t);
      Push(ParseBinary(ToBinaryString(t)))
  }

  /// The effect of one execution, branch by branch in the order of the
  /// source; `current` is the current table (read only by the
  /// transformations, which the validity rules allow only when one exists).
  function CommandEffect(o: Options, env: Env, current: Bits): (e: Effect)
    ensures ActionCount(o) == 0 ==> e.NoOp?
    ensures ActionCount(o) >= 1 && (Chosen(o).Hwb? || Chosen(o).Maj? || Chosen(o).Prime?) ==>
      e.Push? && |e.table| == Pow2(Chosen(o).bits)
    ensures ActionCount(o) >= 1 && Chosen(o).Random? ==> e.Push?
    ensures ActionCount(o) >= 1 && (Chosen(o).Extend? || Chosen(o).Shrink?) ==> e.Replace?
    ensures ActionCount(o) >= 1 && Chosen(o).Swap? ==> e.Replace? || e.BadLexicalCast?
    ensures e.Replace? ==> ActionCount(o) >= 1 && (Chosen(o).Extend? || Chosen(o).Shrink? || Chosen(o).Swap?)
  {
    if o.load.Some? then LoadEffect(o.load.value, env)
    else if o.extend.Some? then Replace(env.ttExtend(current, o.extend.value))
    else if o.shrink.Some? then Replace(env.ttShrink(current, o.shrink.value))
    else if o.random.Some? then Push(env.randomBitset(Pow2(o.random.value)))
    else if o.hwb.Some? then Push(HwbTable(o.hwb.value))
    else if o.maj.Some? then Push(MajTable(o.maj.value))
    else if o.prime.Some? then Push(PrimeBits(o.prime.value))
    else if o.swap.Some? then
      var p := env.splitPair(o.swap.value);
      var i := ParseDecimal(p.0);
      var j := ParseDecimal(p.1);
      if i.None? || j.None? then BadLexicalCast
      else Replace(env.ttPermute(current, i.value, j.value))
    else NoOp
  }

  /// The store's list and index after an effect.
  function ApplyTables(tables: seq<Bits>, index: int, e: Effect): (r: seq<Bits>)
    ensures |r| == if e.Push? then |tables| + 1 else |tables|
    ensures e.Push? ==> r[|tables|] == e.table
    ensures e.Replace? && 0 <= index < |tables| ==> r[index] == e.table
    ensures forall i :: 0 <= i < |tables| && !(e.Replace? && i == index) ==> r[i] == tables[i]
  {
    match e
    case Push(t) => tables + [t]
    case Replace(t) => if 0 <= index < |tables| then tables[index := t] else tables
    case _ => tables
  }

  /// The new current index.  It keeps the store's invariant, and after a
  /// push it designates the pushed table.
  function ApplyIndex(tables: seq<Bits>, index: int, e: Effect): (r: int)
    ensures -1 <= index < |tables| && (index == -1 <==> tables == []) ==>
      var after := ApplyTables(tables, index, e);
      -1 <= r < |after| && (r == -1 <==> after == [])
    ensures e.Push? ==> r == |tables| && ApplyTables(tables, index, e)[r] == e.table
    ensures !e.Push? ==> r == index
  {
    if e.Push? then |tables| else index
  }

  datatype Status = Completed | ThrewBadLexicalCast

  /// `tts.extend(); tts.current() = t;`: a new current slot holding t.
  method PushTable(store: Store, t: Bits)
    requires store.Valid()
    modifies store
    ensures store.Valid()
    ensures store.tables == old(store.tables) + [t]
    ensures store.index == |old(store.tables)|
  {
    store.Extend();
    store.SetCurrent(t);
  }

  /// The `--load` branch of `Execute`.
  method ExecuteLoad(store: Store, text: string, env: Env) returns (status: Status)
    requires store.Valid()
    modifies store
    ensures store.Valid()
    ensures var e := LoadEffect(text, env);
      && store.tables == ApplyTables(old(store.tables), old(store.index), e)
      && store.index == ApplyIndex(old(store.tables), old(store.index), e)
      && (status == ThrewBadLexicalCast <==> e.BadLexicalCast?)
  {
    status := Completed;
    var load := text;
    if HasPrefix(load, 'x') {
      load := env.hex2bin(load[2..]);
    } else if HasPrefix(load, 'd') {
      var col := Find(load, ':');
      if col.None? {
        return;
      }
      var numVars := ParseDecimal(load[2..col.value]);
      var func := ParseDecimal(load[col.value + 1..]);
      if numVars.None? || func.None? {
        return ThrewBadLexicalCast;
      }
      load := ToBinaryString(FromNat(func.value, Pow2(numVars.value)));
    }
    PushTable(store, ParseBinary(load));
  }

  /// The `--swap` branch of `Execute`.
  method ExecuteSwap(store: Store, text: string, env: Env) returns (status: Status)
    requires store.Valid() && store.index >= 0
    modifies store
    ensures store.Valid()
    ensures var p := env.splitPair(text);
      var i, j := ParseDecimal(p.0), ParseDecimal(p.1);
      if i.None? || j.None? then
        && store.tables == old(store.tables) && store.index == old(store.index)
        && status == ThrewBadLexicalCast
      else
        && store.tables == old(store.tables)[old(store.index) := env.ttPermute(old(store.tables[store.index]), i.value, j.value)]
        && store.index == old(store.index)
        && status == Completed
  {
    var pair := env.splitPair(text);
    var i := ParseDecimal(pair.0);
    var j := ParseDecimal(pair.1);
    if i.None? || j.None? {
      return ThrewBadLexicalCast;
    }
    store.SetCurrent(env.ttPermute(store.Current(), i.value, j.value));
    status := Completed;
  }

  /// One run of the command on a store whose validity rules have passed.
  method Execute(store: Store, o: Options, env: Env) returns (status: Status)
    requires store.Valid()
    requires Violations(o, store.index) == []
    modifies store
    ensures store.Valid()
    ensures var e := CommandEffect(o, env, if old(store.index) >= 0 then old(store.tables[store.index]) else []);
      && store.tables == ApplyTables(old(store.tables), old(store.index), e)
      && store.index == ApplyIndex(old(store.tables), old(store.index), e)
      && (status == ThrewBadLexicalCast <==> e.BadLexicalCast?)
  {
    status := Completed;
    if o.load.Some? {
      status := ExecuteLoad(store, o.load.value, env);
    } else if o.extend.Some? {
      store.SetCurrent(env.ttExtend(store.Current(), o.extend.value));
    } else if o.shrink.Some? {
      store.SetCurrent(env.ttShrink(store.Current(), o.shrink.value));
    } else if o.random.Some? {
      PushTable(store, env.randomBitset(Pow2(o.random.value)));
    } else if o.hwb.Some? {
      var h := GenerateHwb(o.hwb.value);
      HwbTableEquals(h, o.hwb.value);
      PushTable(store, h);
    } else if o.maj.Some? {
      var m := GenerateMaj(o.maj.value);
      MajTableEquals(m, o.maj.value);
      PushTable(store, m);
    } else if o.prime.Some? {
      PrimeTableFits(o.prime.value);
      var p := GeneratePrime(o.prime.value, PrimeTable);
      PrimeBitsEquals(p, o.prime.value);
      PushTable(store, p);
    } else if o.swap.Some? {
      status := ExecuteSwap(store, o.swap.value, env);
    }
  }

  /// The log entry: the current table as binary text, none while the store
  /// is empty.
  function Log(store: Store): (r: Option<string>)
    reads store
    requires store.Valid()
    ensures r.None? <==> store.index == -1
    ensures r.Some? ==> IsBinaryText(r.value) && ParseBinary(r.value) == store.tables[store.index]
  {
    if store.index != -1 then
      ParseToBinaryString(store.Current());
      Some(ToBinaryString(store.Current()))
    else
      None
  }
}
