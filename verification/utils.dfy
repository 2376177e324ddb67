/** Small validators, decoders and URL helpers of `src/lib/utils.ts`. */
module Utils {
  import opened Optional
  import opened Strings

  // ----- snowflake ids -----

  /** `/^\d{17,21}$/`: a snowflake id is 17 to 21 ASCII digits and nothing
      else, so its value is below ten to the power of its length. */
  function IsValidDiscordId(id: string): (r: bool)
    ensures r <==> AllDigits(id) && 17 <= |id| <= 21
    ensures r ==> ParseDigits(id) < Pow10(|id|)
  {
    if 17 <= |id| <= 21 && AllDigits(id) then
      DigitsBelow(id);
      true
    else false
  }

  /** `ids.every(isValidDiscordId)`. */
  function ValidateDiscordIds(ids: seq<string>): (r: bool)
    ensures r <==> forall k | 0 <= k < |ids| :: IsValidDiscordId(ids[k])
    ensures ids == [] ==> r
  {
    if |ids| == 0 then true
    else
      assert forall k | 1 <= k < |ids| :: ids[k] == ids[1..][k - 1];
      IsValidDiscordId(ids[0]) && ValidateDiscordIds(ids[1..])
  }

  function Pow10(k: nat): (r: nat)
    ensures r >= 1
  {
    if k == 0 then 1 else 10 * Pow10(k - 1)
  }

  /** No valid id reaches `10^21`. */
  lemma ValidIdBelow(id: string)
    requires IsValidDiscordId(id)
    ensures ParseDigits(id) < Pow10(21)
  {
    Pow10Monotone(|id|, 21);
  }

  /** A string of `n` digits has a value below `10^n`. */
  lemma {:induction false} DigitsBelow(s: string)
    requires AllDigits(s)
    ensures ParseDigits(s) < Pow10(|s|)
    decreases |s|
  {
    if |s| > 0 {
      var p := s[..|s| - 1];
      assert AllDigits(p) by {
        forall k | 0 <= k < |p| ensures IsDigit(p[k]) {
          assert p[k] == s[k];
        }
      }
      DigitsBelow(p);
      assert Pow10(|s|) == 10 * Pow10(|p|);
    }
  }

  lemma {:induction false} Pow10Monotone(a: nat, b: nat)
    requires a <= b
    ensures Pow10(a) <= Pow10(b)
    decreases b - a
  {
    if a < b {
      Pow10Monotone(a, b - 1);
      assert Pow10(b) == 10 * Pow10(b - 1);
    }
  }

  /** A rendered number has at most `k` digits exactly when it is below `10^k`. */
  lemma {:induction false} NatToStringLength(n: nat, k: nat)
    requires k > 0
    ensures |NatToString(n)| <= k <==> n < Pow10(k)
  {
    if n < 10 {
      assert Pow10(k) >= 10 by { assert Pow10(k) == 10 * Pow10(k - 1); }
    } else {
      assert |NatToString(n)| == |NatToString(n / 10)| + 1;
      if k > 1 {
        NatToStringLength(n / 10, k - 1);
        assert Pow10(k) == 10 * Pow10(k - 1);
        assert n / 10 < Pow10(k - 1) <==> n < 10 * Pow10(k - 1);
      }
    }
  }

  /** The decimal form of a number is a valid snowflake id exactly when the
      number lies in `[10^16, 10^21)`. */
  lemma NumericIdValid(n: nat)
    ensures IsValidDiscordId(NatToString(n)) <==> Pow10(16) <= n < Pow10(21)
  {
    NatToStringLength(n, 16);
    NatToStringLength(n, 21);
  }

  // ----- attachment URLs -----

  const AttachmentBase: string := "https://cdn.discordapp.com/attachments/"

  /** The CDN URL of an attachment. */
  function GetAttachmentUrl(channelId: string, attachmentId: string, filename: string): (r: string)
    ensures StartsWith(r, AttachmentBase)
    ensures EndsWith(r, "/" + filename)
  {
    AttachmentBase + channelId + "/" + attachmentId + "/" + filename
  }

  /** Reads the three parts back out of an attachment URL (the inverse of
      `GetAttachmentUrl` when the ids contain no slash). */
  function SplitAttachmentUrl(url: string): Option<(string, string, string)> {
    if !StartsWith(url, AttachmentBase) then None
    else
      var rest := url[|AttachmentBase|..];
      var a := IndexOfFrom(rest, 0, '/');
      if a == -1 then None
      else
        var b := IndexOfFrom(rest, a + 1, '/');
        if b == -1 then None
        else Some((rest[..a], rest[a + 1..b], rest[b + 1..]))
  }

  lemma AttachmentUrlRoundTrip(channelId: string, attachmentId: string, filename: string)
    requires '/' !in channelId && '/' !in attachmentId
    ensures SplitAttachmentUrl(GetAttachmentUrl(channelId, attachmentId, filename))
            == Some((channelId, attachmentId, filename))
  {
    var url := GetAttachmentUrl(channelId, attachmentId, filename);
    var rest := channelId + "/" + attachmentId + "/" + filename;
    assert url[|AttachmentBase|..] == rest;
    var a := |channelId|;
    var b := a + 1 + |attachmentId|;
    assert forall k | 0 <= k < a :: rest[k] == channelId[k];
    assert rest[a] == '/';
    assert IndexOfFrom(rest, 0, '/') == a;
    assert forall k | a + 1 <= k < b :: rest[k] == attachmentId[k - a - 1];
    assert rest[b] == '/';
    assert IndexOfFrom(rest, a + 1, '/') == b;
    assert rest[..a] == channelId && rest[a + 1..b] == attachmentId && rest[b + 1..] == filename;
  }

  // ----- URL rewriting helpers -----

  /** Parsing a URL, changing it and serialising it again (the WHATWG `URL`
      object) is not modelled: it is a parameter of the functions that use it. */
  type UrlRewrite = string -> string

  /** `getDiscordProxyUrl`: the empty URL is returned as it is; any other URL is
      handed to the host rewrite (cdn.discordapp.com to media.discordapp.net). */
  function GetDiscordProxyUrl(url: string, rehost: UrlRewrite): (r: string)
    ensures url == "" ==> r == ""
    ensures url != "" ==> r == rehost(url)
  {
    if url == "" then url else rehost(url)
  }

  predicate IsDiscordCdnUrl(url: string) {
    Contains(url, "cdn.discordapp.com") || Contains(url, "media.discordapp.net")
  }

  /** `getLargerDiscordImageUrl`: an empty URL and a URL on neither Discord
      media host are returned unchanged; the others go to the size rewrite. */
  function GetLargerDiscordImageUrl(url: string, resize: UrlRewrite): (r: string)
    ensures !IsDiscordCdnUrl(url) ==> r == url
    ensures url != "" && IsDiscordCdnUrl(url) ==> r == resize(url)
  {
    if url == "" then url
    else if !IsDiscordCdnUrl(url) then url
    else resize(url)
  }

  // ----- image URL classification -----

  const DynamicContentHosts: seq<string> :=
    ["tenor.com", "giphy.com", "youtube.com", "youtu.be", "twitter.com", "x.com", "tiktok.com"]

  const ImageExtensions: seq<string> := [".png", ".jpg", ".jpeg", ".webp", ".bmp", ".svg", ".gif"]

  const ImageHosts: seq<string> := ["i.imgur.com", "imgur.com/i/", "i.gyazo.com"]

  const CdnImageHints: seq<string> :=
    ["format=webp", "format=png", "format=jpg", "format=jpeg", "format=gif", "size="]

  predicate ContainsAny(s: string, ps: seq<string>) {
    exists k | 0 <= k < |ps| :: Contains(s, ps[k])
  }

  predicate EndsWithAny(s: string, ps: seq<string>) {
    exists k | 0 <= k < |ps| :: EndsWith(s, ps[k])
  }

  /** `url.split('?')[0].split('#')[0].toLowerCase()`. */
  function CleanUrl(url: string): string {
    ToLower(Before(Before(url, '?'), '#'))
  }

  predicate HasImageExtension(url: string) {
    EndsWithAny(CleanUrl(url), ImageExtensions)
  }

  lemma ToLowerIdempotent(s: string)
    ensures ToLower(ToLower(s)) == ToLower(s)
  {
  }

  /** `isImageUrl`, branch by branch: dynamic-content hosts are never images,
      then the extension test, then the Discord CDN hints, then the image hosts.
      The contract states the verdict without the two branches that cannot
      change it: the CDN branch's own extension test and the image-host branch
      both repeat the extension test that has already failed. */
  function IsImageUrl(url: string): (r: bool)
    ensures ContainsAny(url, DynamicContentHosts) ==> !r
    ensures !ContainsAny(url, DynamicContentHosts) ==>
              (r <==> HasImageExtension(url)
                      || (IsDiscordCdnUrl(url) && ContainsAny(url, CdnImageHints)))
  {
    var cleanUrl := CleanUrl(url);
    if ContainsAny(url, DynamicContentHosts) then false
    else if EndsWithAny(cleanUrl, ImageExtensions) then true
    else if Contains(url, "cdn.discordapp.com") || Contains(url, "media.discordapp.net") then
      ToLowerIdempotent(Before(Before(url, '?'), '#'));
      EndsWithAny(ToLower(cleanUrl), ImageExtensions) || ContainsAny(url, CdnImageHints)
    else
      ContainsAny(url, ImageHosts) && EndsWithAny(cleanUrl, ImageExtensions)
  }

  /** Away from the Discord CDN hosts and the dynamic-content hosts, the verdict
      is the extension test alone. */
  lemma PlainHostIsExtensionTest(url: string)
    requires !ContainsAny(url, DynamicContentHosts) && !IsDiscordCdnUrl(url)
    ensures IsImageUrl(url) <==> HasImageExtension(url)
  {
  }

  // ----- bit flags -----

  function Pow2(k: nat): (r: nat)
    ensures r >= 1
  {
    if k == 0 then 1 else 2 * Pow2(k - 1)
  }

  /** The 32-bit pattern `x | 0` that JavaScript's bitwise operators work on,
      read as an unsigned number. */
  function ToUint32(x: int): nat {
    x % 0x1_0000_0000
  }

  /** Bit `k` of a non-negative number. */
  predicate Bit(x: nat, k: nat) {
    if k == 0 then x % 2 == 1 else Bit(x / 2, k - 1)
  }

  /** `(x & (1 << k)) !== 0` for `k <= 30`. */
  predicate BitSet(x: int, k: nat) {
    Bit(ToUint32(x), k)
  }

  const PermissionNames: seq<string> := [
    "CREATE_INSTANT_INVITE", "KICK_MEMBERS", "BAN_MEMBERS", "ADMINISTRATOR",
    "MANAGE_CHANNELS", "MANAGE_GUILD", "ADD_REACTIONS", "VIEW_AUDIT_LOG",
    "PRIORITY_SPEAKER", "STREAM", "VIEW_CHANNEL", "SEND_MESSAGES",
    "SEND_TTS_MESSAGES", "MANAGE_MESSAGES", "EMBED_LINKS", "ATTACH_FILES",
    "READ_MESSAGE_HISTORY", "MENTION_EVERYONE", "USE_EXTERNAL_EMOJIS", "VIEW_GUILD_INSIGHTS",
    "CONNECT", "SPEAK", "MUTE_MEMBERS", "DEAFEN_MEMBERS",
    "MOVE_MEMBERS", "USE_VAD", "CHANGE_NICKNAME", "MANAGE_NICKNAMES",
    "MANAGE_ROLES", "MANAGE_WEBHOOKS", "MANAGE_EMOJIS_AND_STICKERS"]

  const PermissionCount: nat := 31

  predicate Increasing(xs: seq<nat>) {
    forall a, b | 0 <= a < b < |xs| :: xs[a] < xs[b]
  }

  /** The bit positions `k..30` that are set, where `x` holds bit `k` as its
      lowest bit. */
  function SetBitsFrom(x: nat, k: nat): (r: seq<nat>)
    requires k <= PermissionCount
    ensures forall j: nat :: j in r <==> k <= j < PermissionCount && Bit(x, j - k)
    ensures Increasing(r)
    decreases PermissionCount - k
  {
    if k == PermissionCount then []
    else
      var rest := SetBitsFrom(x / 2, k + 1);
      assert forall b | 0 <= b < |rest| :: rest[b] in rest;
      if x % 2 == 1 then [k] + rest else rest
  }

  /** The declaration indices of the permissions held by `permissions`, in
      declaration order. */
  function PermissionBits(permissions: int): (r: seq<nat>)
    ensures forall j: nat :: j in r <==> j < PermissionCount && BitSet(permissions, j)
    ensures Increasing(r)
  {
    SetBitsFrom(ToUint32(permissions), 0)
  }

  /** `parsePermissions`: the names whose bit is set, in declaration order. */
  function ParsePermissions(permissions: int): (r: seq<string>)
    ensures |r| == |PermissionBits(permissions)|
    ensures forall j | 0 <= j < |r| :: PermissionBits(permissions)[j] < |PermissionNames|
              && r[j] == PermissionNames[PermissionBits(permissions)[j]]
  {
    var bits := PermissionBits(permissions);
    assert forall j | 0 <= j < |bits| :: bits[j] in bits;
    seq(|bits|, j requires 0 <= j < |bits| => PermissionNames[bits[j]])
  }

  lemma NoPermissions()
    ensures ParsePermissions(0) == []
  {
    var bits := PermissionBits(0);
    if |bits| > 0 {
      assert bits[0] in bits;
      ZeroHasNoBits(bits[0]);
    }
  }

  lemma {:induction false} ZeroHasNoBits(k: nat)
    ensures !Bit(0, k)
  {
    if k > 0 {
      ZeroHasNoBits(k - 1);
    }
  }

  /** The value of a set of bit positions. */
  function Weight(bits: seq<nat>): nat {
    if |bits| == 0 then 0 else Pow2(bits[0]) + Weight(bits[1..])
  }

  lemma {:induction false} WeightSetBits(x: nat, k: nat)
    requires k <= PermissionCount
    requires x < Pow2(PermissionCount - k)
    ensures Weight(SetBitsFrom(x, k)) == x * Pow2(k)
    decreases PermissionCount - k
  {
    if k < PermissionCount {
      var p := Pow2(k);
      HalfBound(x, Pow2(PermissionCount - (k + 1)));
      WeightSetBits(x / 2, k + 1);
      var h := x / 2;
      assert Pow2(k + 1) == 2 * p;
      assert Weight(SetBitsFrom(h, k + 1)) == h * (2 * p);
      WeightStep(x, k);
      HalfStep(x, p);
    } else {
      assert x == 0;
    }
  }

  /** Halving `x` once more than `2 * p` allows stays below `p`. */
  lemma HalfBound(x: nat, p: nat)
    requires x < 2 * p
    ensures x / 2 < p
  {
  }

  /** The lowest bit contributes its weight, the rest comes from the halved number. */
  lemma WeightStep(x: nat, k: nat)
    requires k < PermissionCount
    ensures Weight(SetBitsFrom(x, k)) == (x % 2) * Pow2(k) + Weight(SetBitsFrom(x / 2, k + 1))
  {
    var rest := SetBitsFrom(x / 2, k + 1);
    if x % 2 == 1 {
      assert SetBitsFrom(x, k) == [k] + rest;
      WeightCons(k, rest);
    } else {
      assert SetBitsFrom(x, k) == rest;
    }
  }

  lemma WeightCons(k: nat, rest: seq<nat>)
    ensures Weight([k] + rest) == Pow2(k) + Weight(rest)
  {
    assert ([k] + rest)[1..] == rest;
  }

  lemma HalfStep(x: nat, p: nat)
    ensures (x / 2) * (2 * p) + (x % 2) * p == x * p
  {
    var h := x / 2;
    assert x == 2 * h + x % 2;
    assert h * (2 * p) == (2 * h) * p;
    assert (2 * h) * p + (x % 2) * p == (2 * h + x % 2) * p;
  }

  /** Adding up the bits of the permissions read from a 31-bit number gives the
      number back: no bit is lost and none is invented. */
  lemma PermissionsRoundTrip(permissions: nat)
    requires permissions < Pow2(PermissionCount)
    ensures Weight(PermissionBits(permissions)) == permissions
  {
    Pow2Literal();
    assert permissions < 0x1_0000_0000;
    assert ToUint32(permissions) == permissions;
    assert PermissionBits(permissions) == SetBitsFrom(permissions, 0);
    WeightSetBits(permissions, 0);
    assert permissions * Pow2(0) == permissions;
  }

  lemma Pow2Literal()
    ensures Pow2(14) == 16384
    ensures Pow2(31) == 0x8000_0000
  {
    assert Pow2(7) == 128;
    Pow2Add(7, 7);
    Pow2Add(14, 14);
    assert Pow2(3) == 8;
    Pow2Add(28, 3);
  }

  lemma {:induction false} Pow2Add(a: nat, b: nat)
    ensures Pow2(a + b) == Pow2(a) * Pow2(b)
    decreases a
  {
    if a > 0 {
      Pow2Add(a - 1, b);
      assert Pow2(a + b) == 2 * Pow2(a - 1 + b);
      assert 2 * (Pow2(a - 1) * Pow2(b)) == (2 * Pow2(a - 1)) * Pow2(b);
    }
  }

  const HasSnapshot: nat := 16384

  /** `hasSnapshotFlag`: `flags & (1 << 14)` is non-zero. */
  function HasSnapshotFlag(flags: int): (r: bool)
    ensures r <==> BitSet(flags, 14)
  {
    BitAsDivision(ToUint32(flags), 14);
    Pow2Literal();
    (ToUint32(flags) / HasSnapshot) % 2 == 1
  }

  /** Bit `k` is the parity of the number divided by `2^k`. */
  lemma {:induction false} BitAsDivision(x: nat, k: nat)
    ensures Bit(x, k) <==> (x / Pow2(k)) % 2 == 1
  {
    if k > 0 {
      BitAsDivision(x / 2, k - 1);
      DivDiv(x, Pow2(k - 1));
    }
  }

  /** Halving and then dividing by `b` is dividing by `2 * b`. */
  lemma DivDiv(x: nat, b: nat)
    requires b > 0
    ensures x / (2 * b) == (x / 2) / b
  {
    var q := (x / 2) / b;
    var r := (x / 2) % b;
    var h := x / 2;
    assert h == b * q + r;
    assert x == 2 * h + x % 2;
    assert x == (2 * b) * q + (2 * r + x % 2);
    DivUnique(x, 2 * b, q, 2 * r + x % 2);
  }

  lemma DivUnique(x: nat, d: nat, q: nat, r: nat)
    requires d > 0 && x == d * q + r && r < d
    ensures x / d == q
  {
    var q' := x / d;
    var r' := x % d;
    assert d * q + r == d * q' + r';
    if q < q' {
      MulAtLeast(d, q' - q);
      assert false;
    } else if q > q' {
      MulAtLeast(d, q - q');
      assert false;
    }
  }

  lemma {:induction false} MulAtLeast(d: nat, m: nat)
    requires m >= 1
    ensures d * m >= d
  {
    if m > 1 {
      MulAtLeast(d, m - 1);
      assert d * m == d * (m - 1) + d;
    }
  }

  /** `isForwardedMessage`: absent or zero flags are never forwarded; otherwise
      the snapshot flag decides. */
  function IsForwardedMessage(flags: Option<int>): (r: bool)
    ensures flags.None? || flags == Some(0) ==> !r
    ensures flags.Some? ==> (r <==> BitSet(flags.value, 14))
  {
    if flags.None? || flags.value == 0 then
      ZeroHasNoBits(14);
      false
    else HasSnapshotFlag(flags.value)
  }

  // ----- message types -----

  const MessageTypes: map<int, string> := map[
    0 := "DEFAULT", 1 := "RECIPIENT_ADD", 2 := "RECIPIENT_REMOVE", 3 := "CALL",
    4 := "CHANNEL_NAME_CHANGE", 5 := "CHANNEL_ICON_CHANGE", 6 := "CHANNEL_PINNED_MESSAGE",
    7 := "USER_JOIN", 8 := "GUILD_BOOST", 9 := "GUILD_BOOST_TIER_1", 10 := "GUILD_BOOST_TIER_2",
    11 := "GUILD_BOOST_TIER_3", 12 := "CHANNEL_FOLLOW_ADD", 14 := "GUILD_DISCOVERY_DISQUALIFIED",
    15 := "GUILD_DISCOVERY_REQUALIFIED", 16 := "GUILD_DISCOVERY_GRACE_PERIOD_INITIAL_WARNING",
    17 := "GUILD_DISCOVERY_GRACE_PERIOD_FINAL_WARNING", 18 := "THREAD_CREATED", 19 := "REPLY",
    20 := "CHAT_INPUT_COMMAND", 21 := "THREAD_STARTER_MESSAGE", 22 := "GUILD_INVITE_REMINDER",
    23 := "CONTEXT_MENU_COMMAND", 24 := "AUTO_MODERATION_ACTION", 25 := "ROLE_SUBSCRIPTION_PURCHASE",
    26 := "INTERACTION_PREMIUM_UPSELL", 27 := "STAGE_START", 28 := "STAGE_END",
    29 := "STAGE_SPEAKER", 31 := "STAGE_TOPIC", 32 := "GUILD_APPLICATION_PREMIUM_SUBSCRIPTION"]

  /** `messageTypes[type] || "UNKNOWN"`: the table entry for listed codes and
      "UNKNOWN" for every other code. */
  function GetMessageTypeName(code: int): (r: string)
    ensures r != ""
    ensures (0 <= code <= 32 && code != 13 && code != 30) ==> r == MessageTypes[code]
    ensures !(0 <= code <= 32 && code != 13 && code != 30) ==> r == "UNKNOWN"
  {
    if code in MessageTypes && MessageTypes[code] != "" then MessageTypes[code] else "UNKNOWN"
  }
}
