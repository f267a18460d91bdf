# acltool core, modelled in Dafny

This project models the core of acltool, a tool that reads, edits and prints
NFSv4-style access control lists on several operating systems. The model
covers two C files.

- `gacl_impl.c`:
  - the Linux codec between a generic ACL and the `system.nfs4_acl`
    extended attribute. The attribute holds a count word, then, for each
    entry, type, flags, access mask, identity length and the identity
    padded to a word, all big-endian (the `nfsace4` structure of section
    6.2.1 of RFC 7530 in XDR form);
  - the identity helpers: `name@domain` and decimal tokens, and the
    `Domain = value` line of the idmapd configuration with its cache;
  - the FreeBSD, Solaris and macOS entry mappers, and the get/set loops
    that convert native lists in ACL order.
- `misc.c`:
  - the symbolic, Samba and icacls renderings of permission and flag words;
  - the entry-type names;
  - the three whole-entry formatters;
  - the directory walker;
  - the timespec difference.

Modules, one per file:

- `Base`: bytes, 32-bit words and ids, C strings, `printf`/`sscanf` decimals,
  error kinds, and the account/group databases as four partial maps.
- `Bits`: arithmetic AND/OR and bit tests on unbounded naturals.
- `Tables`: bit-to-native translation tables of the form `(native, bit)`,
  with the loops that collect and spread bits through them.
- `Gacl`: the generic entry, the NFSv4 bit values, and the ACL container as
  its call sites use it. `gacl.c` is not part of this model.
- `Nfs4Id`: `_nfs4_id_domain`, `_nfs4_id_to_uid` and `_nfs4_id_to_gid`.
- `Nfs4Codec`: `_gacl_to_nfs4` and `_gacl_init_from_nfs4`. Each has a
  specification function on sequences and a method that walks a word cursor
  over an `array<Byte>`, proved equal to it.
- `Nfs4RoundTrip`: decoding what the encoder wrote.
- `FreeBsd`, `Solaris`, `MacOs`: the native mappers and the get/set loops.
  Native records are datatypes; the system calls around the loops are left
  out.
- `Render`: `permset2str`, `flagset2str` and their Samba and icacls variants.
- `AceFormat`: `aet2str`, `ace2str`, `ace2str_samba` and `ace2str_icacls`.
- `Walker`: `_ft_foreach` and `ft_foreach`, over a tree of nodes, with the
  visitor as a function of path and level.
- `Timing`: `ts_delta`.

Where the source reads past a buffer, writes past one, reads more than the
identity it is given, or moves its cursor past text it never wrote, the
model follows what the code evidently intends. It also keeps a member that
models the code as written, and says so under "## Findings". Apart from
those and the lines under "## Left out", behaviour follows the code as
written:

- a decoded `OWNER@` is named `"group@"`;
- strncmp matches any prefix of `OWNER@`, `GROUP@` or `EVERYONE@`;
- a deny entry renders as `ALLOWED/` in the Samba form;
- a directory whose own visit returns a positive value, and that has nothing
  to report beneath it, returns that value from the walk.

## Model

| member | source | states |
|---|---|---|
| Nfs4Id.LineRule | gacl_impl.c:99-113 | a line decides the domain exactly when its first three blank-separated fields are `Domain`, `=`, value; `Domain =` with no value gives up; any other line is passed over |
| Nfs4Id.ScanFromFound | gacl_impl.c:95-115 | the lines yield v exactly when some line decides v and every earlier line is passed over |
| Nfs4Id.ConfigDomainFirstMatch | gacl_impl.c:82-119 | the configured domain is the value of the first deciding line |
| Nfs4Id.DomainLine | gacl_impl.c:99-113 | a line `Domain = v` ending in a newline yields v |
| Nfs4Id.DoubleBlankSkipped | gacl_impl.c:99-105 | two blanks after `Domain` make an empty second field (strsep), so the line is passed over |
| Nfs4Id.DomainCache.constructor | gacl_impl.c:83 | the cache starts empty |
| Nfs4Id.DomainCache.Get | gacl_impl.c:82-119 | returns the cached domain if any, else the configured one, and caches a found value |
| Nfs4Id.EffectiveIsStable | gacl_impl.c:88-112 | once a domain is cached, every later call returns it whatever the configuration |
| Nfs4Id.MatchesLiteralMeans | gacl_impl.c:228-243 | `strncmp(cp, lit, idlen) == 0` holds exactly when the identity is a prefix of the literal, or the literal followed by a NUL |
| Nfs4Id.FindAt | gacl_impl.c:135-172 | the index loop stops at the first '@', or at the end |
| Nfs4Id.IdToUid | gacl_impl.c:123-152 | an empty token is -1; `name@...` is the uid of name whatever the domain; a token without '@' is read as a decimal from its own bytes (corrected; see Findings); anything else returns 0 and keeps the id |
| Nfs4Id.IdToGid | gacl_impl.c:156-189 | as IdToUid, with the same corrected decimal scan, but the name is used only when no domain is configured or the text after '@' equals it, and the domain is loaded through the cache |
| Nfs4Id.UidOfNameToken | gacl_impl.c:128-147 | `name@anything` resolves to getpwnam(name): the domain is ignored |
| Nfs4Id.GidOfNameToken | gacl_impl.c:168-184 | `name@domain` resolves to getgrnam(name) when the domain is the configured one, or none is configured |
| Nfs4Id.GidOfForeignDomain | gacl_impl.c:175-188 | a group token from another domain resolves nothing and keeps the id |
| Nfs4Id.IdOfDecimalToken | gacl_impl.c:148-186 | with the corrected scan, a printed id reads back as that id, for users and groups alike |
| Nfs4Id.DecimalLookup | gacl_impl.c:148-186 | corrected decimal branch: status 1 or 0, and a conversion that does not happen keeps the id |
| Nfs4Id.DecimalLookupAsWritten | gacl_impl.c:148-186 | as written, sscanf reads from the token to the first NUL, past its idlen bytes; there is no result when no NUL lies before the end of the buffer |
| Nfs4Id.PaddingDigitsRead | gacl_impl.c:148 | as written, the token "12" padded with "34" reads as 1234; the corrected scan gives 12 |
| Nfs4Id.LastTokenReadsPast | gacl_impl.c:148 | as written, the token "1000" ending the buffer is read past its end; the corrected scan gives 1000 |
| Nfs4Id.TerminatedTokenAgrees | gacl_impl.c:148-186 | when a NUL follows the token, the scan as written and the corrected scan agree, whatever follows the NUL |
| Nfs4Codec.WordBytes | gacl_impl.c:344 | htonl gives four bytes; their order is pinned down by ReadWordBytes reading the word back |
| Nfs4Codec.ReadWordBytes | gacl_impl.c:203-224 | ntohl of the written bytes gives the word back |
| Nfs4Codec.Vlen | gacl_impl.c:416-419 | an identity of n bytes takes ceil(n/4) words |
| Nfs4Codec.FlagsWord | gacl_impl.c:365-368 | the flags word has the identifier-group bit 0x40 exactly when the entry has it or the tag is GROUP or GROUP_OBJ |
| Nfs4Codec.IdToken | gacl_impl.c:375-414 | an identity exists exactly for USER_OBJ, GROUP_OBJ, EVERYONE, USER and GROUP, and is shorter than the 256-byte tbuf |
| Nfs4Codec.Snprintf | gacl_impl.c:389-404 | snprintf into tbuf keeps a prefix of at most 255 bytes, and all of a shorter text |
| Nfs4Codec.EncodeEntry | gacl_impl.c:353-429 | one entry succeeds exactly when its identity exists and its 4 + ceil(idlen/4) words fit; it never writes past the buffer |
| Nfs4Codec.EncodeFrom | gacl_impl.c:346-429 | the entries from i on stay inside the buffer, and success reports the byte offset reached |
| Nfs4Codec.EncodeSpec | gacl_impl.c:339-430 | nothing is written beyond the whole words of the buffer; success returns the bytes written |
| Nfs4Codec.EncodeAsWritten | gacl_impl.c:339-350 | the count word is always written, even into a buffer of fewer than four bytes |
| Nfs4Codec.CountWordOverrun | gacl_impl.c:344 | as written, a zero-byte buffer receives four bytes and the empty ACL is reported as a four-byte success; corrected, ENOMEM |
| Nfs4Codec.ApplyConcat | gacl_impl.c:339-430 | writing two runs of cells one after the other is writing their concatenation |
| Nfs4Codec.Emit | gacl_impl.c:359-427 | the fixed cells are stored at the cursor and the padding bytes are left alone |
| Nfs4Codec.IdName | gacl_impl.c:375-414 | the identity for a tag, with the domain loaded only for a named USER or GROUP |
| Nfs4Codec.PutHead | gacl_impl.c:355-373 | the three head words are written while room lasts; it fails at the first word without room |
| Nfs4Codec.PutIdentity | gacl_impl.c:416-427 | the length word and padded identity are written exactly when they fit, and otherwise nothing is written |
| Nfs4Codec.PutEntry | gacl_impl.c:346-429 | one loop pass leaves the buffer as EncodeEntry says |
| Nfs4Codec.Encode | gacl_impl.c:331-431 | returns the EncodeSpec result, and the buffer holds exactly its written cells over the old contents |
| Nfs4Codec.Classify | gacl_impl.c:227-253 | the group flag decides group versus user; GROUP@, OWNER@ and EVERYONE@ matches get ugid -1; ids come from the corrected decimal scan |
| Nfs4Codec.HeadAt | gacl_impl.c:220-258 | an entry is read exactly when its four words and identity lie in the buffer; the next one starts ceil(idlen/4) words later |
| Nfs4Codec.HeadsFrom | gacl_impl.c:211-259 | success yields one head per declared entry |
| Nfs4Codec.DecodeSpec | gacl_impl.c:193-262 | success yields as many entries as the count word says |
| Nfs4Codec.HeadsFromFits | gacl_impl.c:211-259 | every accepted head lies inside the buffer |
| Nfs4Codec.DecodeFits | gacl_impl.c:193-262 | a decoded buffer holds the count word and 16 bytes for each declared entry |
| Nfs4Codec.DecodeAsWritten | gacl_impl.c:193-203 | as written, bufsize is never consulted; reading stops only where memory ends |
| Nfs4Codec.DecodeReadsPastBuffer | gacl_impl.c:203-224 | as written, a 4-byte buffer declaring one entry is read 16 bytes past its end; the corrected decoder reports it malformed |
| Nfs4Codec.Identify | gacl_impl.c:227-253 | the classification, resolving ids through the cached domain and the corrected decimal scan |
| Nfs4Codec.ReadHead | gacl_impl.c:220-224 | one loop pass reads what HeadAt says |
| Nfs4Codec.Decode | gacl_impl.c:193-262 | a new NFSv4 ACL holding the decoded entries in wire order, or the decoding error |
| Nfs4RoundTrip.AllSomeEncodable | gacl_impl.c:375-414 | every entry has an identity exactly when every tag is one the encoder knows |
| Nfs4RoundTrip.EncodeLayout | gacl_impl.c:339-430 | success exactly when all identities exist and count word plus entries fit; then the output is the count word, then each entry's words and padded identity in order, and the length is returned |
| Nfs4RoundTrip.EncodeRejectsUnknownTags | gacl_impl.c:411-413 | an entry with an unknown tag makes the encoding fail, whatever the buffer size |
| Nfs4RoundTrip.HeadOfEntryCells | gacl_impl.c:220-224 | an encoded entry reads back as its type, flags word, mask and identity |
| Nfs4RoundTrip.HeadsOfImage | gacl_impl.c:211-259 | the image of the entries reads back as their heads, in order |
| Nfs4RoundTrip.EncodeThenDecode | gacl_impl.c:193-262 | the bytes a successful encoding wrote decode to one head per entry, in order, whatever the padding held |
| Nfs4RoundTrip.DecodedEntry | gacl_impl.c:211-259 | decode(encode(a)) keeps count, order, type and mask, adds the group bit for group tags, and carries the tag TagBack gives (reduced by the lemmas below) |
| Nfs4RoundTrip.SpecialTagBack | gacl_impl.c:227-247 | GROUP@ comes back as group@ with no id; OWNER@ and EVERYONE@ without the group bit come back as the same kind with no id, OWNER@ named "group@"; with the bit they come back as groups named "OWNER@" and "EVERYONE@" |
| Nfs4RoundTrip.UnnamedTagBack | gacl_impl.c:227-253 | a user or group without a name comes back with its id and its decimal as the name, as a group exactly when the group bit is written |
| Nfs4RoundTrip.NamedUserBack | gacl_impl.c:385-396 | a named user comes back as that user with its uid when getpwnam maps the name back, unless the name is OWNER or EVERYONE |
| Nfs4RoundTrip.NamedGroupBack | gacl_impl.c:398-409 | a named group comes back as that group with its gid when getgrnam maps the name back, unless the name is GROUP |
| Nfs4RoundTrip.DecodedUnnamed | gacl_impl.c:211-259 | decode(encode(a)) gives back an unnamed user or group entry with its kind, id, type and mask, named by its decimal |
| Nfs4RoundTrip.DecodeOfEncoded | gacl_impl.c:193-262 | decoding an encoded buffer gives the entries of the written heads |
| Gacl.Inserted | gacl_impl.c:215 | inserting at an index, or at the end for -1, keeps the other entries in order |
| Gacl.Acl.Init | gacl_impl.c:205-209 | a new ACL is empty, with the cursor at the start |
| Gacl.Acl.CreateEntry | gacl_impl.c:215 | an index within range, or -1, inserts the entry; any other index fails and changes nothing |
| Gacl.Acl.GetEntry | gacl_impl.c:687 | FIRST rewinds; each call returns the entry under the cursor and advances, or none at the end |
| Gacl.GroupBit | gacl_impl.c:365-368 | the group bit is set exactly for GROUP and GROUP_OBJ tags |
| FreeBsd.NativeType | gacl_impl.c:599-615 | the four entry types map to native ones, and nothing else does |
| FreeBsd.TypeTablesInverse | gacl_impl.c:556-615 | the read and write type switches are inverse to each other |
| FreeBsd.FromNative | gacl_impl.c:503-575 | reading refuses unknown, mask and other tags and unlisted types with EINVAL, and otherwise copies tag, id, mask and flags |
| FreeBsd.ToNative | gacl_impl.c:582-618 | writing refuses the unknown tag, a USER or GROUP with id -1, and unlisted types, and otherwise copies |
| FreeBsd.ReadThenWrite | gacl_impl.c:503-618 | writing a read entry gives the native entry back |
| FreeBsd.WriteThenRead | gacl_impl.c:503-618 | reading a written entry gives it back with the looked-up name |
| FreeBsd.MaskAndOtherOneWay | gacl_impl.c:512-589 | mask and other entries can be written but are refused when read back |
| FreeBsd.AllFromNative | gacl_impl.c:647-656 | the list converts entry by entry, in order, or fails with EINVAL |
| FreeBsd.AllToNative | gacl_impl.c:687-695 | the ACL converts entry by entry, in order, or fails with EINVAL |
| FreeBsd.GetAcl | gacl_impl.c:625-668 | the new ACL holds the converted entries in native order |
| FreeBsd.SetAcl | gacl_impl.c:675-715 | the native list is the converted entries in ACL order |
| FreeBsd.AclReadThenWrite | gacl_impl.c:625-715 | storing an ACL that was read gives back the native list |
| Solaris.AflagsBits | gacl_impl.c:736-756 | ACE_IDENTIFIER_GROUP is bit 6; ACE_OWNER, ACE_GROUP and ACE_EVERYONE are bits 12, 13 and 14, which make up the principal mask |
| Solaris.PrincipalIs | gacl_impl.c:788-805 | the principal field equals a single bit exactly when that is its only principal bit |
| Solaris.ToAce | gacl_impl.c:729-770 | the five principal kinds are written with their a_flags bits; any other tag is ENOSYS; who, mask and type are copied |
| Solaris.FromAce | gacl_impl.c:777-841 | ACE_OWNER, ACE_GROUP and ACE_EVERYONE alone give the special tags; otherwise the identifier-group bit chooses group or user; the flags keep bits 0-7 except 6 |
| Solaris.WrittenFlagBits | gacl_impl.c:736-766 | the written a_flags are the principal bits beside the entry's flags |
| Solaris.WriteThenRead | gacl_impl.c:729-841 | reading a written entry gives it back, with the special tags losing their id |
| Solaris.ReadWriteRead | gacl_impl.c:729-841 | reading, writing and reading again gives the first reading |
| Solaris.LinkRefusal | gacl_impl.c:855-865 | a path with no-follow is refused when lstat fails (its error) or finds a link (ENOSYS) |
| Solaris.AllFromAce | gacl_impl.c:905-910 | every ace converts, in order |
| Solaris.AllToAce | gacl_impl.c:999-1003 | every entry converts, in order, or the result is ENOSYS |
| Solaris.GetAcl | gacl_impl.c:846-962 | the link refusal comes first; then the ACL holds the converted aces |
| Solaris.SetAcl | gacl_impl.c:967-1030 | the link refusal comes first; then the aces are the converted entries |
| Solaris.AclReadWriteRead | gacl_impl.c:846-1030 | storing an ACL that was read succeeds, and reading it again gives the same ACL |
| MacOs.PmapValues | gacl_impl.c:1041-1058 | the generic column of pmap holds the fourteen permission bits |
| MacOs.FmapValues | gacl_impl.c:1063-1071 | the generic column of fmap holds the five flag bits |
| MacOs.PmapInjective | gacl_impl.c:1041-1058 | no two pmap rows share a macOS permission or a generic bit |
| MacOs.FmapInjective | gacl_impl.c:1063-1071 | no two fmap rows share a macOS flag or a generic bit |
| MacOs.PmapBits | gacl_impl.c:1041-1058 | pmap covers exactly the bits of the fourteen permissions |
| MacOs.FmapBits | gacl_impl.c:1063-1071 | fmap covers exactly its five flag bits |
| MacOs.PermsThroughMac | gacl_impl.c:1136-1218 | generic permissions to macOS and back keep exactly the known bits |
| MacOs.FlagsThroughMac | gacl_impl.c:1146-1235 | generic flags to macOS and back keep exactly the flags fmap knows |
| MacOs.PermsThroughGeneric | gacl_impl.c:1136-1218 | a macOS permission set to generic bits and back is unchanged |
| MacOs.FlagsThroughGeneric | gacl_impl.c:1146-1235 | a macOS flag set to generic bits and back keeps the flags fmap knows |
| MacOs.EntryFromMac | gacl_impl.c:1075-1154 | the read conversion with the pmap and fmap loops |
| MacOs.EntryToMac | gacl_impl.c:1157-1241 | the write conversion with the pmap and fmap loops |
| MacOs.WriteThenRead | gacl_impl.c:1075-1241 | reading a written entry gives it back, up to the flags fmap cannot carry |
| MacOs.ReadThenWrite | gacl_impl.c:1075-1241 | writing a read entry keeps everything but the unknown flags |
| MacOs.AllFromMac | gacl_impl.c:1272-1284 | every entry converts, in order, or the error is that of a failing entry |
| MacOs.AllToMac | gacl_impl.c:1317-1329 | every entry converts, in order, or the error is that of a failing entry |
| MacOs.AllFromMacOk | gacl_impl.c:1272-1284 | the list converts exactly when every entry does |
| MacOs.AllToMacOk | gacl_impl.c:1317-1329 | the ACL converts exactly when every entry does |
| MacOs.PrefixErr | gacl_impl.c:1272-1284 | the first failing entry's error is the result |
| MacOs.ToPrefixErr | gacl_impl.c:1317-1329 | the first failing entry's error is the result |
| MacOs.GetAcl | gacl_impl.c:1244-1292 | only NFSv4 ACLs are read (ENOSYS otherwise), and they hold the converted entries |
| MacOs.SetAcl | gacl_impl.c:1296-1354 | only NFSv4 ACLs are stored (EINVAL otherwise), as the converted entries |
| Tables.ThroughNative | gacl_impl.c:1136-1235 | collecting a spread word keeps exactly the bits the table covers |
| Tables.SpreadOfCollected | gacl_impl.c:1136-1235 | spreading a collected set gives back the known values present |
| Tables.CollectBits | gacl_impl.c:1136-1151 | the loop that ORs in the bit of each present row computes Collected |
| Tables.SpreadBits | gacl_impl.c:1213-1235 | the loop that adds the value of each set bit computes Spread |
| Render.PermTablesCover | misc.c:103-162 | p2c and p2c_windows stand for exactly the fourteen permission bits |
| Render.FlagTablesCover | misc.c:125-181 | f2c and f2c_windows stand for exactly the seven flag bits |
| Render.LetterTablesInjective | misc.c:103-139 | no two p2c or f2c rows share a letter or a bit |
| Render.PermTokensInjective | misc.c:142-162 | no two p2c_windows rows share an abbreviation or a bit |
| Render.FlagTokensInjective | misc.c:165-181 | no two f2c_windows rows share an abbreviation or a bit |
| Render.PermString | misc.c:191-205 | permset2str yields exactly fourteen characters |
| Render.FlagString | misc.c:257-271 | flagset2str yields seven characters |
| Render.MarkedSymbolic | misc.c:191-271 | the letters shown are exactly those of the rows whose bit is set |
| Render.SymbolicReadBack | misc.c:191-271 | reading the shown letters back gives the covered bits of the word |
| Render.PermStringSame | misc.c:191-205 | two masks print alike exactly when they agree on the fourteen permissions |
| Render.FlagStringSame | misc.c:257-271 | two flag words print alike exactly when they agree on the seven flags |
| Render.FillLetters | misc.c:196-270 | the table loop writes one letter or '-' per row, then a NUL, and nothing after |
| Render.PermsetToStr | misc.c:191-205 | res holds the fourteen letters and a NUL |
| Render.FlagsetToStr | misc.c:257-271 | res holds the seven letters and a NUL |
| Render.TokensSpread | misc.c:213-294 | the tokens emitted are the abbreviations of the set bits |
| Render.SplitJoin | misc.c:213-294 | splitting a '\|'-joined string at '\|' gives the tokens back |
| Render.UnwrapWrapped | misc.c:304-318 | a run of parenthesised tokens reads back as the tokens |
| Render.SambaPermsReadBack | misc.c:208-228 | the Samba permission string names exactly the permissions set |
| Render.SambaFlagsReadBack | misc.c:274-296 | the Samba flag string names exactly the flags set |
| Render.IcaclsPermsReadBack | misc.c:232-254 | the icacls permission string is parenthesised and names exactly the permissions set |
| Render.IcaclsFlagsReadBack | misc.c:299-320 | the icacls flag string is a run of parenthesised names of exactly the flags set |
| Render.JoinTokens | misc.c:213-294 | the strcat loop joins the tokens of the set bits with the separator, in table order |
| Render.WrapTokens | misc.c:304-318 | the strcat loop wraps each set bit's token in parentheses, in table order |
| Render.PermsetToSamba | misc.c:208-228 | permset2str_samba: the permission abbreviations joined with '\|' |
| Render.PermsetToIcacls | misc.c:232-254 | permset2str_icacls: the permission abbreviations comma-joined in parentheses |
| Render.FlagsetToSamba | misc.c:274-296 | flagset2str_samba: the flag abbreviations joined with '\|' |
| Render.FlagsetToIcacls | misc.c:299-320 | flagset2str_icacls: each flag abbreviation in its own parentheses |
| AceFormat.TypeName | misc.c:324-343 | aet2str names exactly the four listed types, and no name contains ':' |
| AceFormat.TypeNameInjective | misc.c:324-343 | different listed types have different names |
| AceFormat.Principal | misc.c:688-738 | every tag but the unknown one has a principal |
| AceFormat.PrincipalKind | misc.c:688-738 | different tag kinds never print the same principal |
| AceFormat.AceText | misc.c:663-782 | ace2str fails with EINVAL exactly for the unknown tag |
| AceFormat.AceTextShape | misc.c:748-780 | the line is principal, ':', the fourteen letters, ':', the flag letters, ':', the type name |
| AceFormat.AceTextDetermines | misc.c:663-782 | equal lines have the same tag kind, type, permission bits and flag bits |
| AceFormat.SambaHeader | misc.c:374-443 | every tag but the unknown one has a Samba header |
| AceFormat.SambaKind | misc.c:457-475 | the four listed types have a kind word ending in '/' |
| AceFormat.AceSambaText | misc.c:348-508 | corrected: the unknown tag is EINVAL; every type outside the four listed ones, undefined or not, fails without setting errno; otherwise there is a line |
| AceFormat.SambaAsWritten | misc.c:457-478 | as written, the call succeeds for every known tag and every type but the undefined one; an unlisted type puts the rest of the line at twice the header's length, and the string returned is the header alone |
| AceFormat.SambaAsWrittenListed | misc.c:457-478 | for the four listed types, the line as written is the corrected line |
| AceFormat.UnlistedTypeSkipsAhead | misc.c:457-478 | as written, an everyone@ entry of type 7 succeeds with the header "ACL:Everyone:" and the rest written 26 characters in; the corrected formatter refuses it |
| AceFormat.SambaDenyShownAsAllow | misc.c:463-468 | a deny entry prints exactly like the allow entry |
| AceFormat.SambaNoSlash | misc.c:142-181 | no '/' appears in the Samba permission or flag string |
| AceFormat.SambaTextDetermines | misc.c:348-508 | equal Samba lines have the same permission and flag bits |
| AceFormat.IcaclsHeader | misc.c:518-606 | every tag but the unknown one has an icacls header |
| AceFormat.AceIcaclsText | misc.c:512-658 | ace2str_icacls fails with EINVAL exactly for the unknown tag |
| AceFormat.IcaclsTextDetermines | misc.c:512-658 | equal icacls lines have the same permission bits |
| AceFormat.HeaderCheckOverflow | misc.c:740-780 | as written, a 7-character buffer passes the header check for `owner@` and receives a 35-character line |
| AceFormat.SambaHeaderCheckOverflow | misc.c:445-505 | as written, a 14-character buffer passes the header check for everyone@ ("ACL:Everyone:"), and the rest of the line is written past its end |
| AceFormat.IcaclsHeaderCheckOverflow | misc.c:608-655 | as written, a 10-character buffer passes the header check for everyone@ ("Everyone:"), and the line "Everyone:()" and its NUL are written past its end |
| AceFormat.EmptyBufferAccepted | misc.c:743 | as written, rsize 0 makes `rsize-1` wrap, so every header passes |
| AceFormat.Emit | misc.c:678-781 | corrected cursor: a line that does not fit with its NUL is ENOMEM and nothing is written; otherwise the line and a NUL, and nothing after them changes |
| AceFormat.Ace2Str | misc.c:663-782 | the buffer receives the ace2str line and a NUL, or the error |
| AceFormat.Ace2StrSamba | misc.c:348-508 | corrected: for any entry type, the whole Samba line is checked against rsize; the buffer receives the corrected line and a NUL, or the error, and nothing is written past its end |
| AceFormat.Ace2StrIcacls | misc.c:512-658 | corrected: the whole icacls line is checked against rsize; the buffer receives the line and a NUL, or the error, and nothing is written past its end |
| Walker.QueueOf | misc.c:878-895 | the queue holds only directory entries of the listing, dots excluded |
| Walker.FtWalk | misc.c:924-940 | a root that cannot be lstat'ed is -1; otherwise the walk from level 0 |
| Walker.ReadDir | misc.c:858-905 | the readdir loop skips dots, reports files, queues directories in read order, and stops on failure or a non-zero visitor result |
| Walker.WalkQueue | misc.c:910-914 | the queued directories are walked in order until one returns non-zero |
| Walker.ForEach | misc.c:820-921 | the visits and result of _ft_foreach are those of Walk |
| Walker.FtForEach | misc.c:924-940 | the visits and result of ft_foreach are those of FtWalk |
| Walker.ScanShape | misc.c:858-905 | entries of one listing are reported at the child level, one level down |
| Walker.WalkShape | misc.c:839-914 | a reported node comes first, and every later visit lies beneath it, one level deeper or more, down to maxlevel |
| Walker.ScanReportsFiles | misc.c:858-905 | with a visitor that always continues, the files of a listing are reported in read order before any subdirectory |
| Walker.WalkFilter | misc.c:839-900 | a file-type filter removes visits only; the walk is the unfiltered walk with the visits filtered |
| Walker.WalkResult | misc.c:843-920 | the result is 0, -1 or the value some visit returned |
| Walker.PositiveOwnResult | misc.c:839-920 | a directory whose own visit returns 5 and that has nothing beneath it returns 5; a file returns 0 |
| Timing.CDiv | misc.c:76-96 | C division truncates toward zero |
| Timing.Timespec.constructor | misc.c:55-57 | a timespec with the given seconds and nanoseconds |
| Timing.DeltaExact | misc.c:62-68 | after the borrow, the difference is normalised and equals x - y |
| Timing.MicrosFloor | misc.c:99 | the return value is x - y in whole microseconds, rounded down |
| Timing.DisplayFloor | misc.c:70-96 | the reported value is x - y in the reported unit, rounded down |
| Timing.DisplayUnit | misc.c:70-96 | minutes from 600 s, seconds from 10 s, below 1 s ns, µs or ms by size, and ms otherwise |
| Timing.TsDelta | misc.c:55-100 | the borrow changes x but not the instant it denotes; the return value and display are those of the difference |

## Left out

- System calls and I/O are left out: getxattr/setxattr, acl_get_file/acl_set_file, acl()/facl(), opendir/readdir, fopen of the configuration file. Native lists, directory listings and configuration lines are parameters.
- The Linux `_gacl_get_fd_file` and `_gacl_set_fd_file` (gacl_impl.c:266-326, 435-471) are an attribute read or write around Decode and Encode, so only the codec is modelled.
- Allocation failures are not modelled: malloc, s_dup, s_cat, NEW, gacl_create_entry_np running out of memory. Memory ownership and the static result buffers of misc.c are left out too, as is the NULL-rbuf path that uses them.
- Memory release is not modelled. This hides a defect of the FreeBSD `_gacl_set_fd_file` failure path (gacl_impl.c:711-713): it frees the caller's GACL with `acl_free` and the native ACL with `gacl_free`, which is each object with the other's release function.
- The `#if 0` blocks are left out (gacl_impl.c:913-953, 1012-1024; misc.c:521-523, 620-641).
- gacl.h, nfs4.h and the system ACL headers are not part of this model. Generic bits take the RFC 7530 values; the Solaris principal bits are 0x1000, 0x2000, 0x4000 and 0x40.
- macOS GUID translation is a membership map parameter; mbr_uuid_to_id and friends are not modelled. A GUID or id missing from the map is IoError, following the source's `< 0` tests (gacl_impl.c:1099, 1191, 1195). The model thereby assumes a failed lookup is detected. The mbr_* calls report failure with a positive error code, so as written those tests may never fire, and the source would go on with an unset ugid or GUID.
- Walker.ForEach: the visitor is a function of path and level, so a visitor with state is not modelled. The stat result is reduced to its mode bits. The unused base argument is always 0.
- Walker.ForEach: s_cat and NEW failures (misc.c:866-870, 883-886) are not modelled.
- AceFormat.Ace2Str: acl_get_permset, acl_get_flagset_np and snprintf failures are not modelled, since the entry is a value.
- AceFormat.AceText: an entry type outside the four listed ones makes aet2str return NULL, which the source passes to strcpy. That is undefined behaviour, so the requires of AceText excludes the case.
- AceFormat.Ace2Str: has the same requires as AceText, for the same reason.
- Nfs4Id.IdToUid: reads a decimal token from its idlen bytes only. The source reads the C string at the token, past idlen; see Findings.
- Nfs4Id.IdToGid: has the same corrected decimal scan as IdToUid.
- Nfs4Id.IdOfDecimalToken: holds for the corrected scan. As written, digits in the padding, or a token that ends the buffer, change the result; see Findings.
- Nfs4Codec.Classify: resolves decimal tokens through the corrected scan.
- Nfs4Codec.Identify: resolves decimal tokens through the corrected scan.
- Nfs4RoundTrip.DecodedUnnamed: holds for the corrected scan. The encoder leaves the padding bytes as they were, so as written, digits there would be read into the id.
- AceFormat.AceSambaText: refuses every unlisted type, as it refuses the undefined one. The code as written is SambaAsWritten; see Findings.
- Render.FlagString: the `#ifdef GACE_FLAG_INHERITED` row of f2c (misc.c:135-137) is taken as compiled in, so the flag string has seven letters.
- Render.FlagsetToSamba: the `#ifdef ACL_ENTRY_SUCCESSFUL_ACCESS` and `#ifdef ACL_ENTRY_FAILED_ACCESS` rows of f2c_windows (misc.c:174-179) are taken as compiled in; FlagsetToIcacls uses the same table.
- AceFormat.SambaHeader: the `#ifdef ACL_MASK` case (misc.c:426-430) is taken as compiled in, and so is the one of IcaclsHeader (misc.c:589-593).
- AceFormat.Emit: writes nothing on ENOMEM, while the source writes the header before the check. This follows the intended behaviour of the Findings on misc.c:740-780, misc.c:484-505 and misc.c:646-655. For the same reason nothing is written when ace2str_samba returns NULL for the undefined type (misc.c:460-461), where the source has already written the header.
- AceFormat.Ace2StrSamba: checks the whole line against rsize. The source checks only the header (misc.c:448) and then writes the flags, '/', the permissions, the tab and the letters unchecked; see Findings.
- AceFormat.Ace2StrIcacls: checks the whole line against rsize. The source checks only the header (misc.c:611) and then writes the flags and the permissions unchecked; see Findings.
- Timing.TsDelta: `long` overflow is not modelled; integers are unbounded.
- Nfs4Codec.Decode: a buffer shorter than what it declares is Malformed. The source reads past it; see Findings.
- Nfs4Codec.Encode: a buffer of fewer than four bytes is ENOMEM. The source writes the count word regardless; see Findings.

## Findings

| source | as written | input that shows it | evidently intended | confidence | as-written member | corrected member |
|---|---|---|---|---|---|---|
| gacl_impl.c:344 | the count word is stored before any room check | an empty ACL and a zero-byte buffer: four bytes are written and 4 is returned | check room before the count word as before every other word | not executed | Nfs4Codec.EncodeAsWritten, Nfs4Codec.CountWordOverrun | Nfs4Codec.EncodeSpec, Nfs4Codec.Encode |
| gacl_impl.c:193-258 | bufsize is never read; the count and every entry are read unchecked | the 4-byte buffer 00 00 00 01 declares one entry, read from the 16 bytes after it | stop with an error when the buffer is shorter than what it declares | not executed | Nfs4Codec.DecodeAsWritten, Nfs4Codec.DecodeReadsPastBuffer | Nfs4Codec.DecodeSpec, Nfs4Codec.DecodeFits, Nfs4Codec.Decode |
| gacl_impl.c:148-186 | sscanf is handed the token with no length, so it reads the C string from the token to the first NUL: through the padding and the words after it, and past the buffer when no NUL follows | the token "12" padded with "34" reads as 1234; a last token "1000" that fills its word is read past the end of the buffer | read the decimal from the idlen bytes alone | not executed | Nfs4Id.DecimalLookupAsWritten, Nfs4Id.PaddingDigitsRead, Nfs4Id.LastTokenReadsPast | Nfs4Id.DecimalLookup, Nfs4Id.TerminatedTokenAgrees, Nfs4Id.IdOfDecimalToken |
| misc.c:457-478 | the switch on the entry type has no default, so for any other type rc still holds the header's length and the cursor moves past the header a second time | an everyone@ entry of type 7, which the Linux decoder passes through: the rest of the line goes 26 characters in, 12 after the header's NUL, and the call succeeds with the header alone | refuse the entry, as for the undefined type | not executed | AceFormat.SambaAsWritten, AceFormat.UnlistedTypeSkipsAhead | AceFormat.AceSambaText, AceFormat.SambaAsWrittenListed, AceFormat.Ace2StrSamba |
| misc.c:740-780 | only the principal is checked against rsize; the rest of the line and its NUL are written unchecked | ace2str of an owner@ allow entry into a 7-character buffer writes a 35-character line; rsize 0 passes every check | check the whole line against the room left | not executed | AceFormat.HeaderCheckOverflow, AceFormat.EmptyBufferAccepted | AceFormat.Emit, AceFormat.Ace2Str |
| misc.c:484-505 | ace2str_samba checks only the header against rsize (misc.c:448); the entry type, flags, '/', permissions, tab and letters are written unchecked | an everyone@ allow entry into a 14-character buffer: "ACL:Everyone:" passes, and 24 more characters and the NUL go past the end | check the whole line against the room left | not executed | AceFormat.SambaHeaderCheckOverflow | AceFormat.Emit, AceFormat.Ace2StrSamba |
| misc.c:646-655 | ace2str_icacls checks only the header against rsize (misc.c:611); the flags and permissions are written unchecked | an everyone@ entry with no permissions into a 10-character buffer: "Everyone:" passes, and "()" and the NUL go past the end | check the whole line against the room left | not executed | AceFormat.IcaclsHeaderCheckOverflow | AceFormat.Emit, AceFormat.Ace2StrIcacls |
