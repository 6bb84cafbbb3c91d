/**
 * The bookkeeping of the textured renderer: per-type settings parsed
 * from the settings table, the variation counts and texture lists it
 * keeps per terrain name, the checkerboard used when a texture is
 * missing, and the instance keys that name one variation of a type.
 */
module Sprites {
  import opened Util
  import opened Images
  import opened HexGrid

  /**
   * `Setting`: applies to all types, to none, or to the listed ones
   * (`Setting::All`, `Setting::None`, `Setting::Some`).
   */
  datatype Setting = All | Nothing | Listed(types: seq<HexType>)

  /** The part of a TOML value the settings file is read through. */
  datatype Value =
    | Str(s: string)
    | Boolean(b: bool)
    | Integer(i: int)
    | Array(items: seq<Value>)
    | Table(entries: map<string, Value>)
    | OtherValue

  /** The types named, in order, by the string entries of `arr` that are type names. */
  function NamedTypes(arr: seq<Value>): (r: seq<HexType>)
    ensures |r| <= |arr|
    ensures forall t :: t in r ==> !t.Debug?
    ensures forall t :: t in r <==> !t.Debug? && Str(TypeName(t)) in arr
  {
    if arr == [] then []
    else
      var front := NamedTypes(arr[..|arr| - 1]);
      assert arr == arr[..|arr| - 1] + [arr[|arr| - 1]];
      match arr[|arr| - 1]
      case Str(s) =>
        TypeStringsInverse(Field, s);
        if s in TypeStrings then front + [TypeStrings[s]] else front
      case _ => front
  }

  /** Every non-Debug type is recognised by its own name. */
  lemma NameFound(t: HexType)
    requires !t.Debug?
    ensures TypeName(t) in TypeStrings && TypeStrings[TypeName(t)] == t
  {
    TypeStringsInverse(t, TypeName(t));
  }

  /** What `parse_array` returns: `Setting::None` when no entry names a type. */
  function ParsedArray(arr: seq<Value>): (r: Setting)
    ensures r == Nothing <==> NamedTypes(arr) == []
    ensures r != Nothing ==> r == Listed(NamedTypes(arr))
  {
    var types := NamedTypes(arr);
    if types == [] then Nothing else Listed(types)
  }

  /** `Setting::parse_array`: the loop that collects the recognised types. */
  method ParseArray(arr: seq<Value>) returns (setting: Setting)
    ensures setting == ParsedArray(arr)
  {
    var types: seq<HexType> := [];
    for k := 0 to |arr|
      invariant types == NamedTypes(arr[..k])
    {
      assert arr[..k + 1][..k] == arr[..k];
      match arr[k]
      case Str(s) =>
        if s in TypeStrings {
          types := types + [TypeStrings[s]];
        }
      case _ =>
    }
    assert arr[..|arr|] == arr;
    if types == [] {
      return Nothing;
    }
    setting := Listed(types);
  }

  /**
   * `parse_setting`: the entry `key` of the settings table as a setting;
   * true gives All, false gives Nothing, an array is parsed, anything
   * else or a missing entry gives no setting.
   */
  function ParseSetting(key: string, settings: Value): (r: Option<Setting>)
    ensures r.Some? <==> (settings.Table? && key in settings.entries &&
                          (settings.entries[key].Boolean? || settings.entries[key].Array?))
    ensures r == Some(All) <==> settings.Table? && key in settings.entries && settings.entries[key] == Boolean(true)
    ensures r.Some? && settings.entries[key].Array? ==> r.value == ParsedArray(settings.entries[key].items)
  {
    if settings.Table? && key in settings.entries then
      match settings.entries[key]
      case Array(items) =>
        var parsed := ParsedArray(items);
        Some(parsed)
      case Boolean(b) => if b then Some(All) else Some(Nothing)
      case _ => None
    else None
  }

  /** The scan of a type list, first to last. */
  function ListContains(types: seq<HexType>, t: HexType): (r: bool)
    ensures r <==> t in types
  {
    if types == [] then false
    else if types[0] == t then true
    else ListContains(types[1..], t)
  }

  /** `is_hextype_included`: never for Nothing, always for All, membership for a list. */
  function IsIncluded(setting: Setting, t: HexType): (r: bool)
    ensures setting == Nothing ==> !r
    ensures setting == All ==> r
    ensures setting.Listed? ==> (r <==> t in setting.types)
  {
    match setting
    case Nothing => false
    case All => true
    case Listed(types) => ListContains(types, t)
  }

  /** A parsed array includes exactly the types its strings name, and never a Debug colour. */
  lemma ParsedIncludes(arr: seq<Value>, t: HexType)
    ensures IsIncluded(ParsedArray(arr), t) <==> !t.Debug? && Str(TypeName(t)) in arr
  {
  }

  /** Black when exactly one of the two 4-pixel band indices is odd, magenta otherwise. */
  function Checker(x: nat, y: nat): (c: Color4)
    ensures c == (0, 0, 0, 255) <==> (x / 4) % 2 != (y / 4) % 2
    ensures c != (0, 0, 0, 255) ==> c == (255, 0, 255, 255)
  {
    var oddX := (x / 4) % 2 == 1;
    var oddY := (y / 4) % 2 == 1;
    if (oddX && !oddY) || (!oddX && oddY) then (0, 0, 0, 255) else (255, 0, 255, 255)
  }

  /** The board repeats every 8 pixels and neighbouring 4-pixel squares differ. */
  lemma CheckerPattern(x: nat, y: nat)
    ensures Checker(x + 8, y) == Checker(x, y) && Checker(x, y + 8) == Checker(x, y)
    ensures Checker(x + 4, y) != Checker(x, y) && Checker(x, y + 4) != Checker(x, y)
  {
    assert (x + 8) / 4 == x / 4 + 2 && (y + 8) / 4 == y / 4 + 2;
    assert (x + 4) / 4 == x / 4 + 1 && (y + 4) / 4 == y / 4 + 1;
  }

  /** `generate_error_texture`: a 32 by 32 Rgba checkerboard of black and magenta. */
  method GenerateErrorTexture() returns (img: Image)
    ensures img.width == 32 && img.height == 32 && img.colorMode == Rgba && img.buffer.Length == 32 * 32 * 4
    ensures forall x: nat, y: nat :: x < 32 && y < 32 ==> 4 * img.Offset(x, y) + 4 <= img.buffer.Length
    ensures forall x: nat, y: nat :: x < 32 && y < 32 ==>
      img.PixelRgba(x, y) == if (x / 4) % 2 != (y / 4) % 2 then [0, 0, 0, 255] else [255, 0, 255, 255]
  {
    img := FromFnRgba(32, 32, Checker);
  }

  /** The decimal digits `format!("{}", n)` prints, without leading zeros. */
  function NatToString(n: nat): (s: string)
    ensures |s| >= 1 && (|s| > 1 ==> s[0] != '0')
    ensures forall k :: 0 <= k < |s| ==> '0' <= s[k] <= '9'
  {
    if n < 10 then [Digit(n)] else NatToString(n / 10) + [Digit(n % 10)]
  }

  /** `s.parse::<usize>()`: an optional '+' then one or more decimal digits. */
  function ParseDecimal(s: string): (r: Option<nat>)
  {
    if |s| >= 1 && s[0] == '+' then ParseDigits(s[1..]) else ParseDigits(s)
  }

  /** One or more decimal digits, most significant first. */
  function ParseDigits(s: string): (r: Option<nat>)
    ensures r.Some? <==> |s| >= 1 && forall k :: 0 <= k < |s| ==> '0' <= s[k] <= '9'
  {
    if s == [] || !('0' <= s[|s| - 1] <= '9') then None
    else if |s| == 1 then Some(s[0] as int - '0' as int)
    else
      match ParseDigits(s[..|s| - 1])
      case None => None
      case Some(v) => Some(v * 10 + (s[|s| - 1] as int - '0' as int))
  }

  /** Printing a number and parsing it back gives the number. */
  lemma {:induction false} DecimalRoundTrip(n: nat)
    ensures ParseDecimal(NatToString(n)) == Some(n)
    ensures ParseDigits(NatToString(n)) == Some(n)
  {
    var s := NatToString(n);
    if n >= 10 {
      DecimalRoundTrip(n / 10);
      assert s[..|s| - 1] == NatToString(n / 10);
    }
  }

  /** `str::split('_')`: the pieces between underscores; there is always at least one. */
  function Split(s: string): (r: seq<string>)
    ensures |r| >= 1
  {
    if s == [] then [""]
    else
      var rest := Split(s[1..]);
      if s[0] == '_' then [""] + rest else [[s[0]] + rest[0]] + rest[1..]
  }

  /** A string without an underscore is one piece. */
  lemma {:induction false} SplitPlain(s: string)
    requires '_' !in s
    ensures Split(s) == [s]
  {
    if s != [] {
      SplitPlain(s[1..]);
      assert [s[0]] + s[1..] == s;
    }
  }

  /** Splitting at the first underscore. */
  lemma {:induction false} SplitAtFirst(a: string, b: string)
    requires '_' !in a
    ensures Split(a + "_" + b) == [a] + Split(b)
  {
    if a == [] {
      assert ("" + "_" + b)[1..] == b;
    } else {
      assert (a + "_" + b)[1..] == a[1..] + "_" + b;
      SplitAtFirst(a[1..], b);
      var rest := Split(a[1..] + "_" + b);
      assert rest[0] == a[1..] && rest[1..] == Split(b);
      assert [a[0]] + a[1..] == a;
    }
  }

  /** The key of variation i (from 1) of a type: its name, then `_{i-1}` after the first. */
  function InstanceKey(name: string, i: nat): (key: string)
    requires i >= 1
    ensures i == 1 ==> key == name
    ensures i > 1 ==> |key| > |name| + 1 && key[..|name|] == name && key[|name|] == '_'
  {
    if i == 1 then name else name + "_" + NatToString(i - 1)
  }

  /**
   * How the draw loop reads a key back: the first piece is the type name,
   * the second (if any) the texture index; an index that does not parse
   * makes `unwrap` panic (None).
   */
  function ParseKey(key: string): (r: Option<(string, nat)>)
  {
    var pieces := Split(key);
    if |pieces| > 1 then
      match ParseDecimal(pieces[1])
      case Some(index) => Some((pieces[0], index))
      case None => None
    else Some((pieces[0], 0))
  }

  /** For a name without '_', the key of variation i reads back as (name, i - 1). */
  lemma KeyRoundTrip(name: string, i: nat)
    requires i >= 1 && '_' !in name
    ensures ParseKey(InstanceKey(name, i)) == Some((name, i - 1))
  {
    if i == 1 {
      SplitPlain(name);
    } else {
      var digits := NatToString(i - 1);
      SplitAtFirst(name, digits);
      assert '_' !in digits;
      SplitPlain(digits);
      DecimalRoundTrip(i - 1);
    }
  }

  /** No terrain name contains an underscore. */
  lemma NamesPlain(name: string)
    requires name in TypeStrings
    ensures '_' !in name
  {
  }

  /** A texture held by the renderer: `Image::from_buffer(w, h, data, Rgba)`. */
  datatype Texture = Texture(width: nat, height: nat, data: seq<Byte>)

  /**
   * One `variations` map together with the `textures` map it counts
   * (or the cover pair), keyed by terrain name.
   */
  datatype Bank = Bank(variations: map<string, nat>, textures: map<string, seq<Texture>>)

  /** Every loaded type has as many textures as its variation count says. */
  ghost predicate Consistent(b: Bank)
  {
    forall key :: key in b.textures ==> key in b.variations && |b.textures[key]| == b.variations[key]
  }

  /**
   * `add_texture_variation` on one bank: the texture list of `key` gets
   * the texture at its end and the count goes up by one. `get_mut(..).unwrap()`
   * panics (None) when the type has no texture list or no count.
   */
  function AddVariation(b: Bank, key: string, tex: Texture): (r: Option<Bank>)
    ensures r.Some? <==> key in b.textures && key in b.variations
    ensures r.Some? ==> r.value.textures.Keys == b.textures.Keys && r.value.variations.Keys == b.variations.Keys
    ensures r.Some? ==> r.value.textures[key] == b.textures[key] + [tex]
    ensures r.Some? ==> r.value.variations[key] == b.variations[key] + 1
    ensures r.Some? ==> forall k :: k in b.textures && k != key ==> r.value.textures[k] == b.textures[k]
    ensures r.Some? ==> forall k :: k in b.variations && k != key ==> r.value.variations[k] == b.variations[k]
  {
    if key in b.textures && key in b.variations then
      Some(Bank(b.variations[key := b.variations[key] + 1], b.textures[key := b.textures[key] + [tex]]))
    else None
  }

  /** Adding a variation keeps every count equal to its list's length. */
  lemma AddKeepsConsistent(b: Bank, key: string, tex: Texture)
    requires Consistent(b) && AddVariation(b, key, tex).Some?
    ensures Consistent(AddVariation(b, key, tex).value)
  {
  }

  /** The outcome of `remove_variation`: refused (None), removed (Some(index)), or a panic. */
  datatype RemoveOutcome = Refused | Removed(index: nat) | Panicked

  /** `Vec::remove(index)`: the list without its element at `index`. */
  function RemoveAt(s: seq<Texture>, index: nat): (r: seq<Texture>)
    requires index < |s|
    ensures |r| == |s| - 1
    ensures forall k :: 0 <= k < index ==> r[k] == s[k]
    ensures forall k :: index <= k < |r| ==> r[k] == s[k + 1]
  {
    s[..index] + s[index + 1..]
  }

  /**
   * `remove_variation` as written: panics on a type with no count (the
   * map index), refuses when the count is 1 or the
   * index is above the count, so an index equal to the count passes the
   * guard and `Vec::remove` panics; the count is left as it was.
   */
  function RemoveVariationAsWritten(b: Bank, key: string, index: nat): (r: (RemoveOutcome, Bank))
    ensures key !in b.variations ==> r.0 == Panicked
    ensures r.0.Removed? ==> r.0.index == index && key in b.textures && index < |b.textures[key]|
    ensures r.0.Removed? ==> r.1 == Bank(b.variations, b.textures[key := RemoveAt(b.textures[key], index)])
    ensures !r.0.Removed? ==> r.1 == b
  {
    if key !in b.variations then (Panicked, b)
    else
    var count := b.variations[key];
    if count == 1 || index > count then (Refused, b)
    else if key !in b.textures || index >= |b.textures[key]| then (Panicked, b)
    else (Removed(index), Bank(b.variations, b.textures[key := RemoveAt(b.textures[key], index)]))
  }

  /** A consistent bank with two variations panics on index 2, which the guard lets through. */
  lemma GuardAdmitsCount(tex: Texture)
    ensures var b := Bank(map["Forest" := 2], map["Forest" := [tex, tex]]);
      Consistent(b) && RemoveVariationAsWritten(b, "Forest", 2).0 == Panicked
  {
  }

  /** A successful removal as written leaves the count one above the list's length. */
  lemma StaleCountBreaksConsistency(b: Bank, key: string, index: nat)
    requires Consistent(b)
    requires RemoveVariationAsWritten(b, key, index).0.Removed?
    ensures !Consistent(RemoveVariationAsWritten(b, key, index).1)
  {
    var after := RemoveVariationAsWritten(b, key, index).1;
    assert key in after.textures && |after.textures[key]| == after.variations[key] - 1;
  }

  /**
   * `remove_variation` as evidently intended: refuses when the count is 1
   * or the index is not below the count, and lowers the count with the
   * removal.
   */
  function RemoveVariation(b: Bank, key: string, index: nat): (r: (RemoveOutcome, Bank))
    ensures key !in b.variations ==> r.0 == Panicked
    ensures r.0.Removed? ==> r.0.index == index && key in b.textures && index < |b.textures[key]|
    ensures r.0.Removed? ==> r.1.textures == b.textures[key := RemoveAt(b.textures[key], index)]
    ensures r.0.Removed? ==> (key in b.variations && b.variations[key] >= 1 &&
                              r.1.variations == b.variations[key := b.variations[key] - 1])
    ensures r.0 == Refused <==> key in b.variations && (b.variations[key] == 1 || index >= b.variations[key])
    ensures !r.0.Removed? ==> r.1 == b
  {
    if key !in b.variations then (Panicked, b)
    else
    var count := b.variations[key];
    if count == 1 || index >= count then (Refused, b)
    else if key !in b.textures || index >= |b.textures[key]| then (Panicked, b)
    else (Removed(index), Bank(b.variations[key := count - 1], b.textures[key := RemoveAt(b.textures[key], index)]))
  }

  /**
   * On a consistent bank the corrected removal never panics for a loaded
   * type, removes exactly when the index is in range and more than one
   * variation is left, and keeps the bank consistent.
   */
  lemma RemoveKeepsConsistent(b: Bank, key: string, index: nat)
    requires key in b.variations && key in b.textures && Consistent(b)
    ensures RemoveVariation(b, key, index).0 != Panicked
    ensures RemoveVariation(b, key, index).0.Removed? <==> b.variations[key] != 1 && index < b.variations[key]
    ensures Consistent(RemoveVariation(b, key, index).1)
  {
  }

  /** The keys the draw loop creates for variations 1 ..= count of a type. */
  function InstanceKeys(name: string, count: nat): (keys: seq<string>)
    ensures |keys| == count
    ensures forall i :: 0 <= i < count ==> keys[i] == InstanceKey(name, i + 1)
  {
    seq(count, i requires 0 <= i => InstanceKey(name, i + 1))
  }

  /** The texture the draw loop fetches for a key; None where the indexing panics. */
  function KeyLookup(b: Bank, key: string): (r: Option<Texture>)
    ensures r.Some? ==> ParseKey(key).Some? && ParseKey(key).value.0 in b.textures
  {
    match ParseKey(key)
    case None => None
    case Some(parsed) =>
      if parsed.0 in b.textures && parsed.1 < |b.textures[parsed.0]| then Some(b.textures[parsed.0][parsed.1])
      else None
  }

  /** Every key made from a type's own count finds its texture, variation i being texture i - 1. */
  lemma KeysResolve(b: Bank, name: string, i: nat)
    requires Consistent(b) && name in b.textures && '_' !in name
    requires 1 <= i <= b.variations[name]
    ensures KeyLookup(b, InstanceKey(name, i)) == Some(b.textures[name][i - 1])
  {
    KeyRoundTrip(name, i);
  }

  /**
   * The cover textures the 2.5D loop fetches for a type, as written: one
   * lookup in the cover bank per variation of the type, the count taken
   * from the plain `variations` though the textures come from the cover
   * bank.
   */
  function CoverLookupsAsWritten(plain: Bank, cover: Bank, name: string): (r: seq<Option<Texture>>)
    requires name in plain.variations
    ensures |r| == plain.variations[name]
  {
    seq(plain.variations[name], k requires 0 <= k => KeyLookup(cover, InstanceKey(name, k + 1)))
  }

  /** With two plain variations and one cover texture, the second cover lookup finds nothing. */
  lemma CoverKeysOverrun(tex: Texture)
    ensures var plain := Bank(map["Forest" := 2], map["Forest" := [tex, tex]]);
      var cover := Bank(map["Forest" := 1], map["Forest" := [tex]]);
      Consistent(plain) && Consistent(cover) &&
      CoverLookupsAsWritten(plain, cover, "Forest")[1] == None
  {
    var plain := Bank(map["Forest" := 2], map["Forest" := [tex, tex]]);
    var cover := Bank(map["Forest" := 1], map["Forest" := [tex]]);
    KeyRoundTrip("Forest", 2);
    assert CoverLookupsAsWritten(plain, cover, "Forest")[1] == KeyLookup(cover, InstanceKey("Forest", 2));
  }

  /** The cover lookups counted by the cover bank's own variations, as the cover colours are chosen. */
  function CoverLookups(cover: Bank, name: string): (r: seq<Option<Texture>>)
    requires name in cover.variations
    ensures |r| == cover.variations[name]
  {
    CoverLookupsAsWritten(cover, cover, name)
  }

  /** Counted by the cover variations, every cover lookup of a loaded type finds its texture. */
  lemma CoverKeysResolve(cover: Bank, name: string, k: nat)
    requires Consistent(cover) && name in cover.textures && '_' !in name
    requires k < |CoverLookups(cover, name)|
    ensures CoverLookups(cover, name)[k] == Some(cover.textures[name][k])
  {
    KeysResolve(cover, name, k + 1);
  }

  /**
   * The renderer's settings and texture bookkeeping, which
   * `add_texture_variation` and `remove_variation` update in place.
   */
  class Sprite {
    var randomRotation: Setting
    var randomColor: Setting
    var renderIn25d: Setting
    var plain: Bank
    var cover: Bank

    /** Both banks keep their counts equal to their lists' lengths. */
    ghost predicate Valid()
      reads this
    {
      Consistent(plain) && Consistent(cover)
    }

    /** `add_texture_variation`: false where `unwrap` panics. */
    method AddTextureVariation(data: seq<Byte>, width: nat, height: nat, tile: HexType, isCover: bool) returns (ok: bool)
      requires Valid()
      modifies this
      ensures Valid()
      ensures var b := if isCover then old(cover) else old(plain);
        ok <==> AddVariation(b, TypeName(tile), Texture(width, height, data)).Some?
      ensures ok && isCover ==> cover == AddVariation(old(cover), TypeName(tile), Texture(width, height, data)).value && plain == old(plain)
      ensures ok && !isCover ==> plain == AddVariation(old(plain), TypeName(tile), Texture(width, height, data)).value && cover == old(cover)
      ensures !ok ==> plain == old(plain) && cover == old(cover)
      ensures randomRotation == old(randomRotation) && randomColor == old(randomColor) && renderIn25d == old(renderIn25d)
    {
      var key := TypeName(tile);
      var tex := Texture(width, height, data);
      var b := if isCover then cover else plain;
      var r := AddVariation(b, key, tex);
      ok := r.Some?;
      if ok {
        AddKeepsConsistent(b, key, tex);
        if isCover {
          cover := r.value;
        } else {
          plain := r.value;
        }
      }
    }

    /** `remove_variation`, with the guard and the count corrected. */
    method RemoveTextureVariation(index: nat, tile: HexType, isCover: bool) returns (outcome: RemoveOutcome)
      requires Valid()
      modifies this
      ensures Valid()
      ensures isCover ==> (outcome, cover) == RemoveVariation(old(cover), TypeName(tile), index) && plain == old(plain)
      ensures !isCover ==> (outcome, plain) == RemoveVariation(old(plain), TypeName(tile), index) && cover == old(cover)
      ensures randomRotation == old(randomRotation) && randomColor == old(randomColor) && renderIn25d == old(renderIn25d)
    {
      var key := TypeName(tile);
      var b := if isCover then cover else plain;
      var r := RemoveVariation(b, key, index);
      if key in b.textures {
        RemoveKeepsConsistent(b, key, index);
      }
      outcome := r.0;
      if isCover {
        cover := r.1;
      } else {
        plain := r.1;
      }
    }

    /** `set_random_color` */
    method SetRandomColor(setting: Setting)
      modifies this
      ensures randomColor == setting
      ensures randomRotation == old(randomRotation) && renderIn25d == old(renderIn25d)
      ensures plain == old(plain) && cover == old(cover)
    {
      randomColor := setting;
    }

    /** `set_random_rotation` */
    method SetRandomRotation(setting: Setting)
      modifies this
      ensures randomRotation == setting
      ensures randomColor == old(randomColor) && renderIn25d == old(renderIn25d)
      ensures plain == old(plain) && cover == old(cover)
    {
      randomRotation := setting;
    }

    /** `set_cover` */
    method SetCover(setting: Setting)
      modifies this
      ensures renderIn25d == setting
      ensures randomColor == old(randomColor) && randomRotation == old(randomRotation)
      ensures plain == old(plain) && cover == old(cover)
    {
      renderIn25d := setting;
    }
  }
}
