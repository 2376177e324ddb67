/** The Discord API records the renderer reads, and the helpers of
    `src/lib/discord-api.ts` that derive avatar URLs and a member's role
    colour from them. The HTTP fetchers are not modelled. */
module DiscordApi {
  import opened Optional
  import opened Strings

  datatype User = User(
    id: string,
    username: string,
    discriminator: string,
    avatar: Option<string>,
    globalName: Option<string>)

  datatype Member = Member(
    user: User,
    nick: Option<string>,
    roles: seq<string>,
    avatar: Option<string>)

  /** The fields of a role that the renderer uses. */
  datatype Role = Role(id: string, name: string, color: int, position: int)

  datatype Channel = Channel(id: string, name: Option<string>)

  /** An embed's `image`, `thumbnail` or `video`. */
  datatype Media = Media(url: string, proxyUrl: Option<string>)

  datatype Field = Field(name: string, value: string, inline: Option<bool>)

  /** The fields of an embed that the renderer inspects; `providerName` is
      `provider?.name`. */
  datatype Embed = Embed(
    kind: Option<string>,
    title: Option<string>,
    description: Option<string>,
    url: Option<string>,
    color: Option<int>,
    image: Option<Media>,
    thumbnail: Option<Media>,
    video: Option<Media>,
    providerName: Option<string>,
    fields: Option<seq<Field>>)

  datatype Attachment = Attachment(
    id: string,
    filename: string,
    contentType: Option<string>,
    size: int,
    url: string,
    proxyUrl: string)

  datatype StickerItem = StickerItem(id: string, name: string, formatType: int)

  // ----- parseInt and the remainder operator -----

  /** `parseInt(s)` without a radix: leading white space is skipped, one sign
      is read, a `0x`/`0X` prefix selects base 16, and the longest run of
      digits of the base is read. `None` stands for `NaN` (no digit): text
      without a decimal digit, blank text among it, is `NaN`. */
  function ParseInt(s: string): (r: Option<int>)
    ensures (forall k | 0 <= k < |s| :: !IsDigit(s[k])) ==> r.None?
  {
    var t := s[RunLength(s, 0, IsJsSpace)..];
    NoDigitIsNaN(s, t);
    ParseSigned(t)
  }

  /** A signed number without a decimal digit has no value: even a hex
      number opens with the digit `0`. */
  lemma NoDigitIsNaN(s: string, t: string)
    requires |t| <= |s| && t == s[|s| - |t|..]
    ensures (forall k | 0 <= k < |s| :: !IsDigit(s[k])) ==> ParseSigned(t).None?
  {
    if forall k | 0 <= k < |s| :: !IsDigit(s[k]) {
      var u := if |t| > 0 && (t[0] == '-' || t[0] == '+') then t[1..] else t;
      assert forall k | 0 <= k < |u| :: !IsDigit(u[k]) by {
        forall k | 0 <= k < |u| ensures !IsDigit(u[k]) {
          var j := |s| - |u| + k;
          assert u[k] == s[j];
        }
      }
      if |u| > 0 {
        assert !IsDigit(u[0]);
      }
    }
  }

  /** One optional sign, then the magnitude. */
  function ParseSigned(t: string): Option<int> {
    var sign := if |t| > 0 && t[0] == '-' then -1 else 1;
    var u := if |t| > 0 && (t[0] == '-' || t[0] == '+') then t[1..] else t;
    match ParseMagnitude(u)
    case None => None
    case Some(v) => Some(sign * v)
  }

  /** The longest run of hexadecimal digits after `0x`/`0X`, or of decimal
      digits otherwise; `None` when the run is empty. */
  function ParseMagnitude(u: string): Option<nat> {
    if |u| >= 2 && u[0] == '0' && (u[1] == 'x' || u[1] == 'X') then
      var n := RunLength(u, 2, IsHexDigit);
      var h := u[2..2 + n];
      assert AllHexDigits(h) by {
        forall k | 0 <= k < n ensures IsHexDigit(h[k]) {
          assert h[k] == u[2 + k];
        }
      }
      if n == 0 then None else Some(ParseHexDigits(h))
    else
      var n := RunLength(u, 0, IsDigit);
      var d := u[..n];
      assert AllDigits(d) by {
        forall k | 0 <= k < n ensures IsDigit(d[k]) {
          assert d[k] == u[k];
        }
      }
      if n == 0 then None else Some(ParseDigits(d))
  }

  /** Reading the decimal rendering of an integer gives it back. */
  lemma ParseIntOfString(n: int)
    ensures ParseInt(IntToString(n)) == Some(n)
  {
    var s := IntToString(n);
    var m: nat := if n < 0 then -n else n;
    var d := NatToString(m);
    assert RunLength(s, 0, IsJsSpace) == 0 by {
      assert s[0] == '-' || IsDigit(s[0]);
    }
    assert s[0..] == s;
    MagnitudeOfDigits(d);
    ParseNatToString(m);
    if n < 0 {
      assert s[1..] == d;
      assert ParseSigned(s) == Some(-1 * m);
    } else {
      assert ParseSigned(s) == Some(1 * m);
    }
  }

  /** Reading a plain string of decimal digits gives its value. */
  lemma ParseIntOfDigits(d: string)
    requires |d| > 0 && AllDigits(d)
    ensures ParseInt(d) == Some(ParseDigits(d))
  {
    assert RunLength(d, 0, IsJsSpace) == 0 by {
      assert IsDigit(d[0]);
    }
    assert d[0..] == d;
    MagnitudeOfDigits(d);
    assert ParseSigned(d) == Some(1 * ParseDigits(d));
  }

  /** A non-empty digit string is read whole, in base 10. */
  lemma MagnitudeOfDigits(d: string)
    requires |d| > 0 && AllDigits(d)
    ensures ParseMagnitude(d) == Some(ParseDigits(d))
  {
    DigitRun(d, 0);
    assert d[..|d|] == d;
  }

  lemma {:induction false} DigitRun(d: string, i: nat)
    requires i <= |d| && AllDigits(d)
    ensures RunLength(d, i, IsDigit) == |d| - i
    decreases |d| - i
  {
    if i < |d| {
      DigitRun(d, i + 1);
    }
  }

  /** JavaScript's `a % b`: the remainder takes the sign of the dividend. */
  function TruncRem(a: int, b: nat): (r: int)
    requires b > 0
    ensures -(b as int) < r < b
    ensures a >= 0 ==> r == a % b
    ensures a < 0 ==> r == -((-a) % b)
  {
    if a >= 0 then a % b else -((-a) % b)
  }

  /** `String(x)` for a number that may be `NaN`. */
  function NumberToString(x: Option<int>): string {
    match x
    case None => "NaN"
    case Some(v) => IntToString(v)
  }

  // ----- avatars -----

  const CdnBase: string := "https://cdn.discordapp.com/"

  /** An avatar hash with its file extension: animated hashes (`a_` prefix)
      are GIFs, the others PNGs. */
  function AvatarFile(hash: string): (r: string)
    ensures StartsWith(r, hash)
    ensures EndsWith(r, ".gif") <==> StartsWith(hash, "a_")
    ensures EndsWith(r, ".gif") || EndsWith(r, ".png")
  {
    var r := hash + "." + (if StartsWith(hash, "a_") then "gif" else "png");
    assert r[..|hash|] == hash;
    assert r[|r| - 4..] == (if StartsWith(hash, "a_") then ".gif" else ".png");
    r
  }

  /** The default avatar picked by `parseInt(discriminator) % 5`. */
  function DefaultAvatarUrl(discriminator: string): string {
    var index := match ParseInt(discriminator)
      case None => None
      case Some(v) => Some(TruncRem(v, 5));
    CdnBase + "embed/avatars/" + NumberToString(index) + ".png"
  }

  function GetDiscordAvatarUrl(user: User, size: nat): (r: string)
    ensures Truthy(user.avatar) ==>
      r == CdnBase + "avatars/" + user.id + "/" + AvatarFile(user.avatar.value) + "?size=" + NatToString(size)
    ensures !Truthy(user.avatar) ==> r == DefaultAvatarUrl(user.discriminator)
  {
    if Truthy(user.avatar) then
      CdnBase + "avatars/" + user.id + "/" + user.avatar.value + "."
      + (if StartsWith(user.avatar.value, "a_") then "gif" else "png")
      + "?size=" + NatToString(size)
    else
      var n := ParseInt(user.discriminator);
      var index := if n.None? then None else Some(TruncRem(n.value, 5));
      CdnBase + "embed/avatars/" + NumberToString(index) + ".png"
  }

  /** A user without an avatar and with a decimal discriminator gets one of
      the five default avatars, chosen by the discriminator modulo 5. */
  lemma DefaultAvatarOfDigits(user: User, size: nat)
    requires !Truthy(user.avatar)
    requires |user.discriminator| > 0 && AllDigits(user.discriminator)
    ensures GetDiscordAvatarUrl(user, size)
      == CdnBase + "embed/avatars/" + [DigitChar(ParseDigits(user.discriminator) % 5)] + ".png"
  {
    ParseIntOfDigits(user.discriminator);
  }

  function GetGuildMemberAvatarUrl(member: Member, guildId: string, size: nat): (r: string)
    ensures Truthy(member.avatar) ==>
      r == CdnBase + "guilds/" + guildId + "/users/" + member.user.id + "/avatars/"
           + AvatarFile(member.avatar.value) + "?size=" + NatToString(size)
    ensures !Truthy(member.avatar) ==> r == GetDiscordAvatarUrl(member.user, size)
  {
    if Truthy(member.avatar) then
      CdnBase + "guilds/" + guildId + "/users/" + member.user.id + "/avatars/"
      + member.avatar.value + "." + (if StartsWith(member.avatar.value, "a_") then "gif" else "png")
      + "?size=" + NatToString(size)
    else
      GetDiscordAvatarUrl(member.user, size)
  }

  // ----- role colour -----

  /** `#` followed by the colour in lower-case hexadecimal, padded to six digits. */
  function HexColor(color: int): (r: string)
    ensures StartsWith(r, "#") && |r| >= 7
  {
    "#" + PadStart(IntToHex(color), 6, '0')
  }

  /** A non-negative colour can be read back from its rendering. */
  lemma HexColorRoundTrip(color: nat)
    ensures AllHexDigits(HexColor(color)[1..])
    ensures ParseHexDigits(HexColor(color)[1..]) == color
  {
    var h := NatToHex(color);
    var p := PadStart(h, 6, '0');
    assert HexColor(color)[1..] == p;
    ParseNatToHex(color);
    PaddedHex(h, 6);
  }

  /** A role that counts for the colour: held by the member and coloured. */
  predicate Eligible(member: Member, role: Role) {
    role.id in member.roles && role.color != 0
  }

  /** `k` is the role the source picks: the roles are filtered and then
      stably sorted by decreasing position, so the pick is the first eligible
      role among those of highest position. */
  predicate IsChosenRole(member: Member, roles: seq<Role>, k: nat) {
    k < |roles| && Eligible(member, roles[k])
    && (forall j | 0 <= j < |roles| && Eligible(member, roles[j]) :: roles[j].position <= roles[k].position)
    && (forall j | 0 <= j < k && Eligible(member, roles[j]) :: roles[j].position < roles[k].position)
  }

  /** The index of the role `filter` + stable `sort` + `[0]` selects. */
  function ChooseRole(member: Member, roles: seq<Role>): (r: Option<nat>)
    ensures r.None? <==> forall k | 0 <= k < |roles| :: !Eligible(member, roles[k])
    ensures r.Some? ==> IsChosenRole(member, roles, r.value)
    decreases |roles|
  {
    if |roles| == 0 then None
    else
      var rest := ChooseRole(member, roles[1..]);
      var head := roles[0];
      if Eligible(member, head) && (rest.None? || head.position >= roles[rest.value + 1].position) then
        Some(0)
      else if rest.None? then
        None
      else
        Some(rest.value + 1)
  }

  /** The colour of the member's highest coloured role, or `None` when the
      member has no roles or none of its roles is coloured. */
  function GetHighestRoleColor(member: Member, roles: seq<Role>): (r: Option<string>)
    ensures r.None? <==>
      |member.roles| == 0 || forall k | 0 <= k < |roles| :: !Eligible(member, roles[k])
    ensures r.Some? ==>
      exists k: nat :: IsChosenRole(member, roles, k) && r.value == HexColor(roles[k].color)
  {
    if |member.roles| == 0 then None
    else
      match ChooseRole(member, roles)
      case None => None
      case Some(k) => Some(HexColor(roles[k].color))
  }

  /** The chosen role is unique: two indices satisfying the choice coincide. */
  lemma ChosenRoleUnique(member: Member, roles: seq<Role>, a: nat, b: nat)
    requires IsChosenRole(member, roles, a) && IsChosenRole(member, roles, b)
    ensures a == b
  {
  }
}
