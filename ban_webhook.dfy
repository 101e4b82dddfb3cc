/**
 * Ban and unban notifications (Content.Server/Discord/BanWebhookManager.cs):
 * the manager composes a title, a description, a colour and a table of fields
 * for a ban or an unban, turns the fields into embed fields and, when a webhook
 * URL is configured, posts one embed to it.
 *
 * The HTTP request is recorded as a `Post` in the manager's `posted` list; the
 * response, JSON serialisation and the embed timestamp are not modelled.
 */
module BanWebhook {
  import opened Wrappers
  import opened Strings

  /** A player's network id; `text` is what its `ToString()` renders. */
  datatype NetUserId = NetUserId(text: string)

  /**
   * A `Dictionary<string, string>` that is only ever added to, as its entries
   * enumerate: in insertion order.
   */
  type Fields = seq<(string, string)>

  function Keys(f: Fields): (ks: seq<string>)
    ensures |ks| == |f| && forall i :: 0 <= i < |f| ==> ks[i] == f[i].0
  {
    seq(|f|, i requires 0 <= i < |f| => f[i].0)
  }

  /** `dict.TryGetValue(k, out v)`: the value of the first entry with key `k`. */
  function Lookup(f: Fields, k: string): Option<string>
    decreases |f|
  {
    if f == [] then None else if f[0].0 == k then Some(f[0].1) else Lookup(f[1..], k)
  }

  lemma KeysCons(x: (string, string), f: Fields)
    ensures Keys([x] + f) == [x.0] + Keys(f)
  {
  }

  lemma LookupCons(x: (string, string), f: Fields, k: string)
    ensures Lookup([x] + f, k) == if x.0 == k then Some(x.1) else Lookup(f, k)
  {
    assert ([x] + f)[1..] == f;
  }

  /**
   * The indexer assignment `dict[k] = v`: overwrites the value of an existing
   * key in place, otherwise adds the entry at the end.
   */
  function Put(f: Fields, k: string, v: string): (r: Fields)
    ensures Lookup(r, k) == Some(v)
    ensures forall k' :: k' != k ==> Lookup(r, k') == Lookup(f, k')
    ensures k in Keys(f) ==> Keys(r) == Keys(f)
    ensures k !in Keys(f) ==> Keys(r) == Keys(f) + [k]
    decreases |f|
  {
    if f == [] then
      LookupCons((k, v), [], k);
      [(k, v)]
    else
      assert f == [f[0]] + f[1..];
      KeysCons(f[0], f[1..]);
      if f[0].0 == k then
        var r := [(k, v)] + f[1..];
        KeysCons((k, v), f[1..]);
        LookupCons((k, v), f[1..], k);
        assert forall k' :: k' != k ==> Lookup(r, k') == Lookup(f, k') by {
          forall k' | k' != k ensures Lookup(r, k') == Lookup(f, k') {
            LookupCons((k, v), f[1..], k');
            LookupCons(f[0], f[1..], k');
          }
        }
        r
      else
        var rest := Put(f[1..], k, v);
        var r := [f[0]] + rest;
        KeysCons(f[0], rest);
        LookupCons(f[0], rest, k);
        assert forall k' :: k' != k ==> Lookup(r, k') == Lookup(f, k') by {
          forall k' | k' != k ensures Lookup(r, k') == Lookup(f, k') {
            LookupCons(f[0], rest, k');
            LookupCons(f[0], f[1..], k');
          }
        }
        r
  }

  /** The configuration variables the manager reads. */
  datatype WebhookConfig = WebhookConfig(
    url: Option<string>,        // DiscordBanWebhook
    banColor: string,           // DiscordBanEmbedColor
    roleBanColor: string,       // DiscordRoleBanEmbedColor
    unbanColor: string)         // DiscordUnbanEmbedColor

  /** What `SendBanWebhook` / `SendUnbanWebhook` hand to `SendWebhook`. */
  datatype Notification = Notification(title: string, description: string, colorHex: string, fields: Fields)

  // ---------------------------------------------------------------------------
  // Composition of a ban notification
  // ---------------------------------------------------------------------------

  /** A non-null, non-empty role name makes the ban a role ban. */
  predicate IsRoleBan(role: Option<string>) {
    !IsNullOrEmpty(role)
  }

  const Forever: string := "Навсегда"
  const MinutesSuffix: string := " минут"

  /** The duration text: "{minutes} минут" for a positive number of minutes, otherwise "Навсегда". */
  function DurationText(minutes: Option<nat>): (r: string)
    ensures r == Forever <==> minutes.None? || minutes.value == 0
    ensures r != Forever ==>
      && |r| > |MinutesSuffix| && r[|r| - |MinutesSuffix|..] == MinutesSuffix
      && (forall k :: 0 <= k < |r| - |MinutesSuffix| ==> IsDigit(r[k]))
      && r[0] != '0'
  {
    if minutes.Some? && minutes.value > 0 then
      var t := NatToDecimal(minutes.value) + MinutesSuffix;
      assert IsDigit(t[0]) && !IsDigit(Forever[0]);
      t
    else Forever
  }

  /** Reads a duration text back: the minutes, or `None` for "Навсегда" and anything else. */
  function ParseDuration(t: string): Option<nat> {
    if |t| > |MinutesSuffix| && t[|t| - |MinutesSuffix|..] == MinutesSuffix
       && (forall i :: 0 <= i < |t| - |MinutesSuffix| ==> IsDigit(t[i]))
    then Some(DecimalValue(t[..|t| - |MinutesSuffix|]))
    else None
  }

  /** The duration text names exactly the positive minute count, and "Навсегда" stands for all else, zero included. */
  lemma DurationRoundTrip(minutes: Option<nat>)
    ensures ParseDuration(DurationText(minutes))
            == if minutes.Some? && minutes.value > 0 then minutes else None
  {
    var t := DurationText(minutes);
    if minutes.Some? && minutes.value > 0 {
      var d := NatToDecimal(minutes.value);
      assert t[..|t| - |MinutesSuffix|] == d;
      assert t[|t| - |MinutesSuffix|..] == MinutesSuffix;
      DecimalRoundTrip(minutes.value);
    } else {
      assert |t| == 8;
    }
  }

  /** `username ?? (userId?.ToString() ?? fallback)`. */
  function DisplayName(username: Option<string>, userId: Option<NetUserId>, fallback: string): (r: string)
    ensures username.Some? ==> r == username.value
    ensures username.None? && userId.Some? ==> r == userId.value.text
    ensures username.None? && userId.None? ==> r == fallback
  {
    username.GetOr(if userId.Some? then userId.value.text else fallback)
  }

  const BanKeys: seq<string> := ["Администратор", "Цель", "Причина", "Длительность", "Серьёзность"]
  const RoleBanTitlePrefix: string := "Блокировка роли: "

  /** The dictionary initialiser of a ban: five keys, each set once, in this order. */
  function BanFields(adminName: string, targetName: string, reason: string, duration: string, severity: string): (f: Fields)
    ensures Keys(f) == BanKeys
    ensures Lookup(f, "Администратор") == Some(adminName)
    ensures Lookup(f, "Цель") == Some(targetName)
    ensures Lookup(f, "Причина") == Some(reason)
    ensures Lookup(f, "Длительность") == Some(duration)
    ensures Lookup(f, "Серьёзность") == Some(severity)
  {
    var f1 := Put([], "Администратор", adminName);
    assert Keys(f1) == ["Администратор"];
    var f2 := Put(f1, "Цель", targetName);
    assert Keys(f2) == ["Администратор", "Цель"];
    var f3 := Put(f2, "Причина", reason);
    assert Keys(f3) == ["Администратор", "Цель", "Причина"];
    var f4 := Put(f3, "Длительность", duration);
    assert Keys(f4) == ["Администратор", "Цель", "Причина", "Длительность"];
    Put(f4, "Серьёзность", severity)
  }

  /** Everything `SendBanWebhook` computes before it calls `SendWebhook`. */
  function BanNotification(
    cfg: WebhookConfig,
    targetUserId: Option<NetUserId>, targetUsername: Option<string>,
    adminUserId: Option<NetUserId>, adminUsername: Option<string>,
    minutes: Option<nat>, reason: string, severity: string, role: Option<string>): (n: Notification)
    ensures Keys(n.fields) == BanKeys
    ensures Lookup(n.fields, "Администратор") == Some(DisplayName(adminUsername, adminUserId, "Система"))
    ensures Lookup(n.fields, "Цель") == Some(DisplayName(targetUsername, targetUserId, "N/A"))
    ensures Lookup(n.fields, "Причина") == Some(reason)
    ensures Lookup(n.fields, "Длительность") == Some(DurationText(minutes))
    ensures Lookup(n.fields, "Серьёзность") == Some(severity)
    ensures IsRoleBan(role) ==>
      && n.colorHex == cfg.roleBanColor
      && n.title == RoleBanTitlePrefix + role.value
      && n.description == "Роль **" + role.value + "** заблокирована для игрока"
    ensures !IsRoleBan(role) ==>
      && n.colorHex == cfg.banColor
      && n.title == "Игровая блокировка"
      && n.description == "Игрок заблокирован на сервере"
  {
    var isRoleBan := IsRoleBan(role);
    var colorHex := if isRoleBan then cfg.roleBanColor else cfg.banColor;
    var duration := DurationText(minutes);
    var adminName := DisplayName(adminUsername, adminUserId, "Система");
    var targetName := DisplayName(targetUsername, targetUserId, "N/A");
    var title := if isRoleBan then RoleBanTitlePrefix + role.value else "Игровая блокировка";
    var fields := BanFields(adminName, targetName, reason, duration, severity);
    var description := if isRoleBan then "Роль **" + role.value + "** заблокирована для игрока"
                       else "Игрок заблокирован на сервере";
    Notification(title, description, colorHex, fields)
  }

  /** The role a ban title names, if it is a role-ban title. */
  function RoleOfTitle(title: string): Option<string> {
    if |title| >= |RoleBanTitlePrefix| && title[..|RoleBanTitlePrefix|] == RoleBanTitlePrefix
    then Some(title[|RoleBanTitlePrefix|..])
    else None
  }

  /** The title tells a role ban from a plain ban and names the banned role. */
  lemma BanTitleNamesRole(
    cfg: WebhookConfig,
    targetUserId: Option<NetUserId>, targetUsername: Option<string>,
    adminUserId: Option<NetUserId>, adminUsername: Option<string>,
    minutes: Option<nat>, reason: string, severity: string, role: Option<string>)
    ensures var n := BanNotification(cfg, targetUserId, targetUsername, adminUserId, adminUsername,
                                     minutes, reason, severity, role);
            RoleOfTitle(n.title) == if IsRoleBan(role) then role else None
  {
    var n := BanNotification(cfg, targetUserId, targetUsername, adminUserId, adminUsername,
                             minutes, reason, severity, role);
    if IsRoleBan(role) {
      assert n.title[..|RoleBanTitlePrefix|] == RoleBanTitlePrefix;
      assert n.title[|RoleBanTitlePrefix|..] == role.value;
    } else {
      assert n.title[0] != RoleBanTitlePrefix[0];
    }
  }

  // ---------------------------------------------------------------------------
  // Composition of an unban notification
  // ---------------------------------------------------------------------------

  /** Everything `SendUnbanWebhook` computes before it calls `SendWebhook`. */
  function UnbanNotification(
    cfg: WebhookConfig, banId: int,
    adminUserId: Option<NetUserId>, adminUsername: Option<string>, role: Option<string>): (n: Notification)
    ensures n.colorHex == cfg.unbanColor
    ensures Keys(n.fields) == if IsRoleBan(role) then ["Администратор", "ID бана", "Роль"]
                              else ["Администратор", "ID бана"]
    ensures Lookup(n.fields, "Администратор") == Some(DisplayName(adminUsername, adminUserId, "Система"))
    ensures Lookup(n.fields, "ID бана") == Some(IntToDecimal(banId))
    ensures IsRoleBan(role) ==>
      && Lookup(n.fields, "Роль") == role
      && n.title == "Разблокировка роли: " + role.value
      && n.description == "Роль **" + role.value + "** разблокирована для игрока"
    ensures !IsRoleBan(role) ==>
      && Lookup(n.fields, "Роль") == None
      && n.title == "Разблокировка игрока"
      && n.description == "Игрок разблокирован на сервере"
  {
    var colorHex := cfg.unbanColor;
    var isRoleUnban := IsRoleBan(role);
    var adminName := DisplayName(adminUsername, adminUserId, "Система");
    var title := if isRoleUnban then "Разблокировка роли: " + role.value else "Разблокировка игрока";
    var f1 := Put([], "Администратор", adminName);
    var f2 := Put(f1, "ID бана", IntToDecimal(banId));
    var fields := if isRoleUnban then Put(f2, "Роль", role.value) else f2;
    var description := if isRoleUnban then "Роль **" + role.value + "** разблокирована для игрока"
                       else "Игрок разблокирован на сервере";
    Notification(title, description, colorHex, fields)
  }

  /** The ban id field reads back as the ban id itself. */
  lemma UnbanIdRoundTrip(
    cfg: WebhookConfig, banId: int,
    adminUserId: Option<NetUserId>, adminUsername: Option<string>, role: Option<string>)
    ensures var v := Lookup(UnbanNotification(cfg, banId, adminUserId, adminUsername, role).fields, "ID бана");
            && v.Some? && |v.value| >= 1
            && var digits := if v.value[0] == '-' then v.value[1..] else v.value;
               (forall k :: 0 <= k < |digits| ==> IsDigit(digits[k]))
               && (if v.value[0] == '-' then -(DecimalValue(digits) as int) else DecimalValue(digits) as int) == banId
  {
    DecimalIntRoundTrip(banId);
  }

  // ---------------------------------------------------------------------------
  // SendWebhook
  // ---------------------------------------------------------------------------

  datatype EmbedField = EmbedField(name: string, value: string, inline: bool)

  datatype Embed = Embed(title: string, description: string, color: int, fields: seq<EmbedField>)

  /** One HTTP POST of `{ embeds = [embed] }` to `url`. */
  datatype Post = Post(url: string, embed: Embed)

  /** How a `SendWebhook` call ends. */
  datatype Delivery =
    | NotConfigured             // the URL is null or white space: nothing built, nothing sent
    | ColorRejected             // Convert.ToInt32 threw: the exception is logged, nothing sent
    | Posted(post: Post)

  /** One embed field per dictionary entry, in order, with the same name and value and shown inline. */
  function EmbedFieldsOf(fields: Fields): (es: seq<EmbedField>)
    ensures |es| == |fields|
    ensures forall i :: 0 <= i < |fields| ==>
      es[i].name == fields[i].0 && es[i].value == fields[i].1 && es[i].inline
  {
    seq(|fields|, i requires 0 <= i < |fields| => EmbedField(fields[i].0, fields[i].1, true))
  }

  /** What `SendWebhook(title, description, colorHex, fields)` does with the configured URL. */
  function Deliver(url: Option<string>, title: string, description: string, colorHex: string, fields: Fields): (d: Delivery)
    ensures IsNullOrWhiteSpace(url) <==> d.NotConfigured?
    ensures d.ColorRejected? <==> !IsNullOrWhiteSpace(url) && ParseHex32(TrimStart(colorHex, '#')).None?
    ensures d.Posted? ==>
      && d.post.url == url.value
      && Some(d.post.embed.color) == ParseHex32(TrimStart(colorHex, '#'))
      && d.post.embed.title == title && d.post.embed.description == description
      && d.post.embed.fields == EmbedFieldsOf(fields)
  {
    if IsNullOrWhiteSpace(url) then NotConfigured
    else
      var color := ParseHex32(TrimStart(colorHex, '#'));
      if color.None? then ColorRejected
      else Posted(Post(url.value, Embed(title, description, color.value, EmbedFieldsOf(fields))))
  }

  function DeliverNotification(cfg: WebhookConfig, n: Notification): Delivery {
    Deliver(cfg.url, n.title, n.description, n.colorHex, n.fields)
  }

  /** The `foreach` of `SendWebhook` that turns the dictionary into embed fields. */
  method BuildEmbedFields(fields: Fields) returns (embedFields: seq<EmbedField>)
    ensures embedFields == EmbedFieldsOf(fields)
  {
    embedFields := [];
    for i := 0 to |fields|
      invariant embedFields == EmbedFieldsOf(fields[..i])
    {
      assert fields[..i + 1] == fields[..i] + [fields[i]];
      embedFields := embedFields + [EmbedField(fields[i].0, fields[i].1, true)];
    }
    assert fields[..|fields|] == fields;
  }

  const SawmillName: string := "admin.bans.webhook"

  class BanWebhookManager {
    const cfg: WebhookConfig
    var initialized: bool
    /** The log channel, obtained on first use. */
    var sawmill: Option<string>
    /** The requests sent so far, oldest first. */
    var posted: seq<Post>
    /** The number of errors logged for exceptions caught while sending. */
    var errorsLogged: nat

    constructor (cfg: WebhookConfig)
      ensures this.cfg == cfg
      ensures !initialized && sawmill.None? && posted == [] && errorsLogged == 0
    {
      this.cfg := cfg;
      initialized := false;
      sawmill := None;
      posted := [];
      errorsLogged := 0;
    }

    /** `EnsureInitialized`: the first call fetches the log channel; later calls change nothing. */
    method EnsureInitialized()
      modifies this
      ensures initialized && sawmill == if old(initialized) then old(sawmill) else Some(SawmillName)
      ensures posted == old(posted) && errorsLogged == old(errorsLogged)
      ensures old(initialized) ==> unchanged(this)
    {
      if initialized {
        return;
      }
      sawmill := Some(SawmillName);
      initialized := true;
    }

    /** `SendWebhook`: posts the embed unless the URL is blank; a bad colour is logged instead. */
    method SendWebhook(title: string, description: string, colorHex: string, fields: Fields)
      modifies this
      ensures initialized && sawmill == if old(initialized) then old(sawmill) else Some(SawmillName)
      ensures var d := Deliver(cfg.url, title, description, colorHex, fields);
              && posted == old(posted) + (if d.Posted? then [d.post] else [])
              && errorsLogged == old(errorsLogged) + (if d.ColorRejected? then 1 else 0)
    {
      ghost var d := Deliver(cfg.url, title, description, colorHex, fields);
      EnsureInitialized();
      var webhookUrl := cfg.url;
      if IsNullOrWhiteSpace(webhookUrl) {
        assert d.NotConfigured?;
        return;
      }
      var embedFields := BuildEmbedFields(fields);
      var color := ParseHex32(TrimStart(colorHex, '#'));
      if color.None? {
        assert d.ColorRejected?;
        errorsLogged := errorsLogged + 1;
        return;
      }
      var embed := Embed(title, description, color.value, embedFields);
      assert d == Posted(Post(webhookUrl.value, embed));
      posted := posted + [Post(webhookUrl.value, embed)];
    }

    /** `SendBanWebhook`: composes the ban notification and sends it. */
    method SendBanWebhook(
      targetUserId: Option<NetUserId>, targetUsername: Option<string>,
      adminUserId: Option<NetUserId>, adminUsername: Option<string>,
      minutes: Option<nat>, reason: string, severity: string, role: Option<string>)
      requires minutes.Some? ==> minutes.value < TwoTo32
      modifies this
      ensures initialized && sawmill == if old(initialized) then old(sawmill) else Some(SawmillName)
      ensures var d := DeliverNotification(cfg, BanNotification(cfg, targetUserId, targetUsername, adminUserId,
                                                      adminUsername, minutes, reason, severity, role));
              && posted == old(posted) + (if d.Posted? then [d.post] else [])
              && errorsLogged == old(errorsLogged) + (if d.ColorRejected? then 1 else 0)
    {
      EnsureInitialized();
      var n := BanNotification(cfg, targetUserId, targetUsername, adminUserId, adminUsername,
                               minutes, reason, severity, role);
      SendWebhook(n.title, n.description, n.colorHex, n.fields);
    }

    /** `SendUnbanWebhook`: composes the unban notification and sends it. */
    method SendUnbanWebhook(banId: int, adminUserId: Option<NetUserId>, adminUsername: Option<string>, role: Option<string>)
      requires -TwoTo31 <= banId < TwoTo31
      modifies this
      ensures initialized && sawmill == if old(initialized) then old(sawmill) else Some(SawmillName)
      ensures var d := DeliverNotification(cfg, UnbanNotification(cfg, banId, adminUserId, adminUsername, role));
              && posted == old(posted) + (if d.Posted? then [d.post] else [])
              && errorsLogged == old(errorsLogged) + (if d.ColorRejected? then 1 else 0)
    {
      EnsureInitialized();
      var n := UnbanNotification(cfg, banId, adminUserId, adminUsername, role);
      SendWebhook(n.title, n.description, n.colorHex, n.fields);
    }
  }
}
