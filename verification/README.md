# RootFs: a verified model of its executable logic

RootFs is a collection of cross-built binaries with their headers and three small
C programs that set up and enter a chroot jail. Most of its algorithms are only
there as binaries; the logic that can be read is in inline functions, statement
macros and those programs. This project models that logic in Dafny and proves what
it promises.

| file | what it models |
|---|---|
| `Asn1Octets.dfy` | headers, lengths and end-of-contents octets: the environment of the ASN.1 macros |
| `Asn1Schema.dfy` | types as lists of required, optional, IMPLICIT and EXPLICIT fields, nested at will; objects with NULL components |
| `Asn1Encode.dfy`, `Asn1Decode.dfy` | what the I2D and D2I macros compute, as functions |
| `Asn1Failure.dfy` | what a failed decode leaves in the object it was given |
| `Asn1I2d.dfy`, `Asn1D2i.dfy` | the macros themselves: two passes over a moving pointer; a cursor that overwrites and restores its input |
| `Asn1Object.dfy` | d2i functions with their `**a` and `**pp` |
| `Asn1Bare.dfy` | get_EXP_opt around a function without a surrounding sequence |
| `Asn1Numbers.dfy` | the octets in numbers: headers, encodings, lookahead, errors |
| `Asn1RoundTrip.dfy`, `Asn1WellTyped.dfy`, `Asn1Tags.dfy`, `Asn1Canonical.dfy`, `Asn1Reuse.dfy`, `Asn1Lengths.dfy` | the theorems about them |
| `Bignum.dfy` | `bn_correct_top` and the value macros |
| `Salt.dfy` | the salt loop of both account programs |
| `AccountLines.dfy`, `RunArguments.dfy` | account lines, and `make_jail_etc.c` from options to the file it writes |
| `Bitmap.dfy`, `Swab.dfy` | bits in a byte buffer, byte order |
| `ChrootShell.dfy` | `chrootshell.c` over all answers of the operating system |
| `Cluster.dfy`, `ExtAttr.dfy` | cluster and array arithmetic, the attribute-entry walk |
| `Options.dfy`, `Sequences.dfy`, `Powers.dfy` | helpers |

`dafny verify dfyconfig.toml` checks everything.

## How the code is read

- The macros of `asn1_mac.h` are put together by hand in each type's functions. Here
  a type is a `Schema` value, and its i2d and d2i functions run the macros that
  the fields ask for, in order; a component's callee is the function of its own
  type, to any depth. `Explicit` and `Sequence` carry the length form their encoder
  uses (`seq_total` or `INF_seq_start`); the decoder never looks at it.
- `ASN1_put_object`, `ASN1_object_size`, `ASN1_get_object`,
  `ASN1_const_check_infinite_end`, `asn1_GetSequence` and `asn1_const_Finish` are only
  declared. They are the environment, defined from ITU-T X.690 sections 8.1.2, 8.1.3,
  8.1.5, 8.9 and 8.14: definite contents must lie inside what may be read, lengths
  fit a 32-bit `long`, sequences are constructed, end-of-contents is two zero octets.
  Primitive types' own functions are environment too: a header and opaque octets.
- get_EXP_opt hands its callee a negative length when an indefinite wrapper has
  less than two octets left. The types of a `Schema`, primitive or with a surrounding
  SEQUENCE, read nothing then and fail. A function built from M_ASN1_D2I_begin takes the
  negative length as `c.slen`, and its lookahead reads behind the input: `D2iBare`, and
  `Asn1Bare` for the run in which get_EXP_opt hands the length on.
- A type that uses INF_seq_start and INF_seq_end counts their four octets in its first
  pass itself, since no macro does; the model's types do.
- A macro that finds its field absent leaves the pointer alone, so a reused object
  keeps stale components. `Asn1Reuse` says exactly when that shows.
- A plain component that is NULL writes nothing, because every i2d function answers
  0 for NULL; such an object is never clear.
- `unsigned long` has 32 bits on the target, `BN_ULONG` as selected in
  `opensslconf.h` too. A time and a process id are what is left of them in such a word.
- getopt's answers, sscanf's reading of -i, crypt, time, getpid, getenv, getpwnam,
  chdir, chroot, setuid, malloc and fopen are inputs. A null pointer that the code
  would use (no log file, no memory for the dashed name, an empty argv; in
  `make_jail_etc.c` no stream, no home directory, no answer of crypt) ends a run as
  `Faulted`, or with `faulted` set.
- The generators of `make_jail_etc.c` open their file twice, test the first stream and
  print to the second; the group generator opens it once and does not test it. An
  opened file is emptied.
- `use-crypt.c` prints its second argument, the password, in the name field, and
  `make_jail_etc.c` takes the name from -u; both lines have the shape of `ShadowText`.

Where comments and code disagree, the model follows the code. The header comment of
`chrootshell.c` promises a comparison of the real user id with the passwd entry; the
code makes none. Its message speaks of `argc==3`; the code asks for more than one
argument with "-c" first. The comment on `validate_input_args` asks a passwd run for a
user name only; the code asks for a shell too.

The definitions the theorems share are stated a second time on octets, bits, bytes,
strings and options alone, so that none of them rests on another: `Asn1Numbers`, and
in the other files `MaskIsPower`, `MemoryIs`, `EntryIs`, `InsideAt`, `SaltIs`, `SeedCharIs`,
`DecimalIs`, `ReadsAsIs`, `LastIs`, `PicksAre`, `LastOnesAre`, `StopsAre`, `IsLineIs`, `UndashedIs`,
`MayExecIs`, `UsesNullIs`, `VariablesAre`, `ArgumentsAre`, `DisciplinedIs`, `SpliceIs`, `BareIs`.

## Where a property fails

- Decoding is not injective. It is on canonical octets, and under the tag rule every
  other stream collides with a canonical one (`Asn1Canonical.CanonicalIsExact`,
  `CanonicalIsInjective`, `OthersCollide`). One way to leave the canonical ones is the
  macros' own: get_EXP_opt ignores how much of a definite wrapper its callee used
  (`Asn1Lengths.OverlongWrapperIsAccepted`, `WrapperIsExact`).
- The lookahead of a field list without a sequence leaves the input exactly for a
  negative length and a first field that looks (`Asn1D2i.D2iBare`,
  `Asn1Decode.LooksBehindItsInput`). Inside get_EXP_opt it leaves the wrapper's input
  exactly when an indefinite header is all of that; the run fails in any case, but
  which error it reports hangs on the octet behind (`Asn1Bare.GetExpBare`,
  `NegativeNeverDecodes`, `ErrorHangsOnNext`).
- An object whose absent component looks like what follows never comes back
  (`Asn1RoundTrip.RoundTrip`, per type `Asn1Tags.DistinctIsExact`).
- No process id of more than 16 bits can be read back from a salt, by any reader
  (`Salt.SaltIsReadBack`, `Salt.WideIdCollides`, `Salt.NoReaderTells`).
- The next cluster's first block wraps to 0 behind the last cluster, and NUM_B2C
  wraps near the end of the block numbers (`Cluster.BlockInCluster`,
  `Cluster.NumB2CIsCeiling`).
- An attribute entry without a name, index and offset ends the walk, and the
  entries behind it are not visited (`ExtAttr.WalkIsExact`).
- A run that reaches its generator has a line to print except for -P without a home
  directory, which validation accepts (`RunArguments.LineIsThere`, `RunReadsBack`,
  `ValidationSkipsHome`).
- A passwd or shadow run whose file cannot be opened prints nothing and ends like a
  good one; when only the second opening fails, the file is left empty
  (`RunArguments.Run.RunMain`).

## Model

| member | source | states |
|---|---|---|
| `Asn1RoundTrip.RoundTrip` | openssl-0.9.8x-binary/arm-cortexA8-linux-gnueabi/usr/local/include/openssl/asn1_mac.h:75-170 | for every type and every object of it, at any nesting, decoding the encoding followed by any octets returns the object and stops exactly behind it if and only if no lookahead (LookaheadIs) mistakes a later octet for an absent component |
| `Asn1RoundTrip.RoundTripFields` | openssl-0.9.8x-binary/arm-cortexA8-linux-gnueabi/usr/local/include/openssl/asn1_mac.h:109-122 | the same for a bare field list read from begin to Finish_nolen, where the octet after the last field takes part in the lookahead |
| `Asn1RoundTrip.ImplicitIsTransparent` | openssl-0.9.8x-binary/arm-cortexA8-linux-gnueabi/usr/local/include/openssl/asn1_mac.h:156-170 | undoing the identifier rewrite of put_IMP_opt hands the callee exactly the octets the untagged encoder wrote, and the lookahead of get_IMP_opt recognises the field |
| `Asn1RoundTrip.PrefixFree` | openssl-0.9.8x-binary/arm-cortexA8-linux-gnueabi/usr/local/include/openssl/asn1_mac.h:75-170 | two octet streams that start with clear encodings of a type and are equal hold the same object and the same rest |
| `Asn1WellTyped.WellTypedIsExact` | openssl-0.9.8x-binary/arm-cortexA8-linux-gnueabi/usr/local/include/openssl/asn1_mac.h:149-170 | a type's functions read its full object back if and only if every OPTIONAL and IMPLICIT field was given its callee's own universal tag, at every depth |
| `Asn1Numbers.LookaheadIs` | openssl-0.9.8x-binary/arm-cortexA8-linux-gnueabi/usr/local/include/openssl/asn1_mac.h:149-170 | for every octet, in numbers: which one each macro takes for its component |
| `Asn1Numbers.AbsentIsSkipped` | openssl-0.9.8x-binary/arm-cortexA8-linux-gnueabi/usr/local/include/openssl/asn1_mac.h:149-170 | in front of any other octet, or none, the macro leaves component and cursor alone; in front of one of its own, a success is there and used octets |
| `Asn1Numbers.CalleeReads` | openssl-0.9.8x-binary/arm-cortexA8-linux-gnueabi/usr/local/include/openssl/asn1_mac.h:149-170 | the callee of get_opt reads the octets as they are, that of get_IMP_opt with its own tag written over the first and the constructed bit kept |
| `Asn1Numbers.EncodingIs` | openssl-0.9.8x-binary/arm-cortexA8-linux-gnueabi/usr/local/include/openssl/asn1_mac.h:550-563 | every encoding, octet by octet: tag or 0x30, length octets, contents, and the marks of the indefinite form |
| `Asn1Numbers.FieldIs` | openssl-0.9.8x-binary/arm-cortexA8-linux-gnueabi/usr/local/include/openssl/asn1_mac.h:467-525 | every component, octet by octet: as it is, retagged into the context class, or wrapped; an absent one is nothing |
| `Asn1Numbers.SequenceIs` | openssl-0.9.8x-binary/arm-cortexA8-linux-gnueabi/usr/local/include/openssl/asn1_mac.h:91-107 | a sequence decodes exactly behind 0x30 when its fields do and use up the definite contents, or two zero octets close the indefinite ones |
| `Asn1Numbers.SequenceErrors` | openssl-0.9.8x-binary/arm-cortexA8-linux-gnueabi/usr/local/include/openssl/asn1_mac.h:91-107 | which error ends a sequence: no header, another identifier, contents left over, each exactly when |
| `Asn1Numbers.SlotErrors` | openssl-0.9.8x-binary/arm-cortexA8-linux-gnueabi/usr/local/include/openssl/asn1_mac.h:270-293 | which error ends a field macro: a bad header is get_EXP_opt's own, what a callee reports becomes a nested error |
| `Asn1Numbers.WrapperErrors` | openssl-0.9.8x-binary/arm-cortexA8-linux-gnueabi/usr/local/include/openssl/asn1_mac.h:284-291 | a missing end is reported exactly behind a callee that succeeded |
| `Asn1Numbers.ConstructedIsOneBit` | openssl-0.9.8x-binary/arm-cortexA8-linux-gnueabi/usr/local/include/openssl/asn1_mac.h:149-160 | the two masks of the macros are the machine's and with 0x20 and its complement |
| `Asn1Tags.DistinctIsExact` | openssl-0.9.8x-binary/arm-cortexA8-linux-gnueabi/usr/local/include/openssl/asn1_mac.h:149-170 | a type obeys the tag-distinctness rule if and only if every object with its required components is clear; a breaking type has a constructed counterexample |
| `Asn1Tags.DistinctRoundTrip` | openssl-0.9.8x-binary/arm-cortexA8-linux-gnueabi/usr/local/include/openssl/asn1_mac.h:75-170 | under the tag rule every complete object comes back from its encoding, whatever follows |
| `Asn1Tags.ReencodingIsFaithful` | openssl-0.9.8x-binary/arm-cortexA8-linux-gnueabi/usr/local/include/openssl/asn1_mac.h:270-293 | whatever octets an object was decoded from, its own encoding decodes to the same object; whether that encoding is the same octets is CanonicalIsExact |
| `Asn1Tags.DecodedIsComplete` | openssl-0.9.8x-binary/arm-cortexA8-linux-gnueabi/usr/local/include/openssl/asn1_mac.h:129-133 | a successful decode into nothing has every required component, at every depth |
| `Asn1Tags.IdentifierOctets` | openssl-0.9.8x-binary/arm-cortexA8-linux-gnueabi/usr/local/include/openssl/asn1_mac.h:467-526 | class, constructed bit and tag number of the first octet of each kind of field, as X.690 section 8.1.2 lays them out |
| `Asn1Canonical.CanonicalIsExact` | openssl-0.9.8x-binary/arm-cortexA8-linux-gnueabi/usr/local/include/openssl/asn1_mac.h:75-293 | the octets an object was decoded from are those its encoder writes if and only if they are canonical: every header shortest and in the type's form, every definite EXPLICIT wrapper used up, at every depth |
| `Asn1Canonical.CanonicalIsInjective` | openssl-0.9.8x-binary/arm-cortexA8-linux-gnueabi/usr/local/include/openssl/asn1_mac.h:75-293 | canonical octets that decode to equal objects are equal |
| `Asn1Canonical.OthersCollide` | openssl-0.9.8x-binary/arm-cortexA8-linux-gnueabi/usr/local/include/openssl/asn1_mac.h:75-293 | under the tag rule every decodable stream that is not canonical shares its object with a different, canonical one |
| `Asn1Canonical.EncodedIsCanonical` | openssl-0.9.8x-binary/arm-cortexA8-linux-gnueabi/usr/local/include/openssl/asn1_mac.h:372-563 | what the put macros write is canonical, whatever follows it |
| `Asn1Canonical.ShortestIsPut` | openssl-0.9.8x-binary/arm-cortexA8-linux-gnueabi/usr/local/include/openssl/asn1.h:923-930 | a header without an octet too many is the one put_object writes for its length |
| `Asn1Reuse.ReuseIsOverlay` | openssl-0.9.8x-binary/arm-cortexA8-linux-gnueabi/usr/local/include/openssl/asn1_mac.h:82-85 | decoding into an object the caller passes in succeeds, fails and stops exactly as into nothing, and yields the fresh result laid over that object |
| `Asn1Reuse.RoundTripInto` | openssl-0.9.8x-binary/arm-cortexA8-linux-gnueabi/usr/local/include/openssl/asn1_mac.h:149-154 | a clear encoding comes back into a reused object exactly when nothing set in the reused object is missing from the encoded one |
| `Asn1Reuse.FailureIsPrefix` | openssl-0.9.8x-binary/arm-cortexA8-linux-gnueabi/usr/local/include/openssl/asn1_mac.h:128-170 | what a failed decode makes of a reused object: components before the failing one are decoded over it, those behind are untouched, and a failing NULL one is as in a fresh object |
| `Asn1Reuse.FailureIsReached` | openssl-0.9.8x-binary/arm-cortexA8-linux-gnueabi/usr/local/include/openssl/asn1_mac.h:128-170 | which field fails does not depend on the object passed in |
| `Asn1Reuse.FailureAt` | openssl-0.9.8x-binary/arm-cortexA8-linux-gnueabi/usr/local/include/openssl/asn1_mac.h:128-170 | component by component: what its macro decodes from the octets in front of it, and for the failing one what that macro leaves |
| `Asn1Numbers.LeftIs` | openssl-0.9.8x-binary/arm-cortexA8-linux-gnueabi/usr/local/include/openssl/asn1_mac.h:75-104 | a failed decode touches a given object only behind a sequence's own header |
| `Asn1Numbers.LeftSlotIs` | openssl-0.9.8x-binary/arm-cortexA8-linux-gnueabi/usr/local/include/openssl/asn1_mac.h:270-293 | a failing macro leaves what its callee left, and behind a missing end the callee's whole object |
| `Asn1Lengths.DefiniteIsLocal` | openssl-0.9.8x-binary/arm-cortexA8-linux-gnueabi/usr/local/include/openssl/asn1_mac.h:91-108 | what a definite encoding decodes to does not depend on any octet behind those it used |
| `Asn1Lengths.WrapperIsExact` | openssl-0.9.8x-binary/arm-cortexA8-linux-gnueabi/usr/local/include/openssl/asn1_mac.h:270-293 | a definite EXPLICIT wrapper is left at its announced end if and only if the callee used all of it, for a value of either form; for a definite one that is read off the two headers |
| `Asn1Lengths.OverlongWrapperIsAccepted` | openssl-0.9.8x-binary/arm-cortexA8-linux-gnueabi/usr/local/include/openssl/asn1_mac.h:279-292 | one family of non-canonical octets: a wrapper that also claims k following octets decodes like the proper one and leaves those octets to the next fields |
| `Asn1Octets.GetPutObject` | openssl-0.9.8x-binary/arm-cortexA8-linux-gnueabi/usr/local/include/openssl/asn1.h:923-930 | environment: reading a header back gives the identifier, the header size and the length that were put |
| `Asn1Octets.LongForm` | openssl-0.9.8x-binary/arm-cortexA8-linux-gnueabi/usr/local/include/openssl/asn1.h:927-930 | environment: the length octets of X.690 section 8.1.3, counted, most significant first and shortest |
| `Asn1Numbers.HeaderIsExact` | openssl-0.9.8x-binary/arm-cortexA8-linux-gnueabi/usr/local/include/openssl/asn1.h:927-930 | environment: exactly which octets are read as which header, tag numbers, length forms and limits included |
| `Asn1Numbers.LengthIsShortest` | openssl-0.9.8x-binary/arm-cortexA8-linux-gnueabi/usr/local/include/openssl/asn1.h:927-930 | environment: the length octets of every length up to 2^31 - 1, shortest and in numbers |
| `Asn1I2d.I2d` | openssl-0.9.8x-binary/arm-cortexA8-linux-gnueabi/usr/local/include/openssl/asn1_mac.h:372-378 | two-pass agreement: the number returned for a NULL output is the number of octets written and moved by for a real one, and the octets are the encoding, the rest of the buffer untouched |
| `Asn1I2d.I2dSequence` | openssl-0.9.8x-binary/arm-cortexA8-linux-gnueabi/usr/local/include/openssl/asn1_mac.h:550-563 | the same for the vars, length pass, opening, put pass, finish skeleton at every nesting depth, in either length form |
| `Asn1I2d.PutSequence` | openssl-0.9.8x-binary/arm-cortexA8-linux-gnueabi/usr/local/include/openssl/asn1_mac.h:550-563 | the second pass writes exactly the wrapped field encodings from the counts the first pass kept |
| `Asn1I2d.LenFields` | openssl-0.9.8x-binary/arm-cortexA8-linux-gnueabi/usr/local/include/openssl/asn1_mac.h:377-440 | the length macros add up what the put macros will write, and keep each EXPLICIT field's `v` for the second pass |
| `Asn1I2d.PutFields` | openssl-0.9.8x-binary/arm-cortexA8-linux-gnueabi/usr/local/include/openssl/asn1_mac.h:467-526 | the put macros write the field encodings one behind the other and change nothing else |
| `Asn1I2d.PutImplicit` | openssl-0.9.8x-binary/arm-cortexA8-linux-gnueabi/usr/local/include/openssl/asn1_mac.h:469-475 | put_IMP_opt leaves the callee's octets with only the identifier changed |
| `Asn1I2d.PutExplicit` | openssl-0.9.8x-binary/arm-cortexA8-linux-gnueabi/usr/local/include/openssl/asn1_mac.h:521-526 | put_EXP_opt writes a wrapper whose length is the first pass's `v`; the INF macros in its place write the indefinite wrapper |
| `Asn1I2d.PutIndefinite` | openssl-0.9.8x-binary/arm-cortexA8-linux-gnueabi/usr/local/include/openssl/asn1_mac.h:556-560 | INF_seq_start and INF_seq_end with any tag and class around the put macros give the indefinite form |
| `Asn1D2i.D2i` | openssl-0.9.8x-binary/arm-cortexA8-linux-gnueabi/usr/local/include/openssl/asn1_mac.h:75-104 | a d2i function computes Dec from the octets it may read, moves *pp only on success, gives the buffer back octet for octet on success and on error, and on error leaves *a as Left says |
| `Asn1D2i.D2iSequence` | openssl-0.9.8x-binary/arm-cortexA8-linux-gnueabi/usr/local/include/openssl/asn1_mac.h:75-108 | the same for start_sequence, field macros, Finish_2, with the error code each failure sets |
| `Asn1D2i.D2iBare` | openssl-0.9.8x-binary/arm-cortexA8-linux-gnueabi/usr/local/include/openssl/asn1_mac.h:109-122 | begin and Finish_nolen for any length, negative too: what is computed, and that the lookahead stays inside the input if and only if the length is not negative or the first field does not look ahead |
| `Asn1Decode.LooksBehindItsInput` | openssl-0.9.8x-binary/arm-cortexA8-linux-gnueabi/usr/local/include/openssl/asn1_mac.h:164-170 | with a negative length, success of a one-field list hangs on an octet that is not its input |
| `Asn1Bare.NegativeNeverDecodes` | openssl-0.9.8x-binary/arm-cortexA8-linux-gnueabi/usr/local/include/openssl/asn1_mac.h:270-293 | get_EXP_opt hands on a negative length exactly when an indefinite header has less than two octets behind it; such a run fails around every bare callee, as a nested error if the callee fails and for its missing end otherwise |
| `Asn1Bare.ErrorHangsOnNext` | openssl-0.9.8x-binary/arm-cortexA8-linux-gnueabi/usr/local/include/openssl/asn1_mac.h:270-293 | for one wrapper and callee the error is told by the octet behind the whole input, whatever that octet is |
| `Asn1Bare.GetExpBare` | openssl-0.9.8x-binary/arm-cortexA8-linux-gnueabi/usr/local/include/openssl/asn1_mac.h:270-293 | get_EXP_opt with a bare callee: what is computed, left and restored, and that both lookaheads stay inside the input if and only if the header does not run out of it before a callee that looks |
| `Asn1D2i.ConstCtx.GetFields` | openssl-0.9.8x-binary/arm-cortexA8-linux-gnueabi/usr/local/include/openssl/asn1_mac.h:128-293 | a run of field macros computes DecFields, keeps p + slen at the end of input, looks ahead inside the input for a length that is not negative, restores every octet it overwrote, and on failure keeps the components decoded before |
| `Asn1D2i.ConstCtx.Get` | openssl-0.9.8x-binary/arm-cortexA8-linux-gnueabi/usr/local/include/openssl/asn1_mac.h:129-133 | get moves the cursor by what the callee used and reports a nested error otherwise |
| `Asn1D2i.ConstCtx.GetOpt` | openssl-0.9.8x-binary/arm-cortexA8-linux-gnueabi/usr/local/include/openssl/asn1_mac.h:149-154 | get_opt touches neither cursor nor component unless the octet is the universal tag, primitive or constructed, and runs the callee otherwise |
| `Asn1D2i.ConstCtx.GetImpOpt` | openssl-0.9.8x-binary/arm-cortexA8-linux-gnueabi/usr/local/include/openssl/asn1_mac.h:156-170 | get_IMP_opt runs the callee on the retagged octets and restores the overwritten octet on both paths |
| `Asn1D2i.ConstCtx.GetExpOpt` | openssl-0.9.8x-binary/arm-cortexA8-linux-gnueabi/usr/local/include/openssl/asn1_mac.h:270-293 | get_EXP_opt: bad header, callee failure and missing end-of-contents are told apart; on success the cursor accounts for the header and, if indefinite, the two closing octets |
| `Asn1D2i.ConstCtx.FinishTwo` | openssl-0.9.8x-binary/arm-cortexA8-linux-gnueabi/usr/local/include/openssl/asn1_mac.h:91-96 | Finish_2 succeeds exactly when a definite sequence is used up or an indefinite one is closed |
| `Asn1Object.D2iObject` | openssl-0.9.8x-binary/arm-cortexA8-linux-gnueabi/usr/local/include/openssl/asn1_mac.h:75-104 | all or nothing: *pp and *a change only on success, and on failure an object is freed exactly when this call allocated it, never the caller's, which keeps what was decoded before the failure |
| `Asn1Object.WriteThenRead` | openssl-0.9.8x-binary/arm-cortexA8-linux-gnueabi/usr/local/include/openssl/asn1_mac.h:75-170 | i2d into any place of a buffer, then d2i there, gives an equal object and leaves the cursor behind it |
| `Bignum.BigNum.CorrectTop` | openssl-0.9.8x-binary/arm-cortexA8-linux-gnueabi/usr/local/include/openssl/bn.h:751-760 | bn_correct_top terminates, touches no word, never grows top, keeps the magnitude and leaves the normal form bn_check_top asserts |
| `Bignum.NormalFormIsUnique` | openssl-0.9.8x-binary/arm-cortexA8-linux-gnueabi/usr/local/include/openssl/bn.h:731-739 | normalised numbers of equal magnitude have equal words |
| `Bignum.StrippedIsCanonical` | openssl-0.9.8x-binary/arm-cortexA8-linux-gnueabi/usr/local/include/openssl/bn.h:751-760 | bn_correct_top makes two word sequences equal if and only if their magnitudes are |
| `Bignum.MacrosAfterCorrectTop` | openssl-0.9.8x-binary/arm-cortexA8-linux-gnueabi/usr/local/include/openssl/bn.h:379-383 | after bn_correct_top, BN_is_zero, BN_is_one, BN_abs_is_word and BN_is_word hold exactly for the value the words had before it |
| `Bignum.MacrosOnAnyForm` | openssl-0.9.8x-binary/arm-cortexA8-linux-gnueabi/usr/local/include/openssl/bn.h:379-383 | on any words, normalised or not, exactly when each macro is right about the value |
| `Bignum.OddIsParity` | openssl-0.9.8x-binary/arm-cortexA8-linux-gnueabi/usr/local/include/openssl/bn.h:384 | BN_is_odd is the parity of the signed value, without normalising |
| `Bignum.WordsForIsLeast` | openssl-0.9.8x-binary/arm-cortexA8-linux-gnueabi/usr/local/include/openssl/bn.h:663-664 | bn_expand asks for the least number of words that holds the normal form of every number below 2^bits |
| `Salt.MakeSalt` | make_jail_etc.c:233-246 | the loop fills eight places behind the prefix $5$ with characters of the table, those of the packed seed words |
| `Salt.SaltIs` | make_jail_etc.c:234-246 | the finished salt place by place: $5$, five groups of six bits of the time and three of the folded process id, lowest first |
| `Salt.SeedCharIs` | make_jail_etc.c:235-237 | the character of each six-bit value |
| `Salt.SaltIsReadBack` | make_jail_etc.c:241-246 | reading a salt back recovers time and process id exactly when the id has at most 16 bits |
| `Salt.SharedSalts` | use-crypt.c:103-108 | exactly which pairs of time and process id share a salt |
| `Salt.SaltIsInjective` | make_jail_etc.c:241-246 | salts tell all 32-bit times and 16-bit process ids apart |
| `Salt.WideIdCollides` | make_jail_etc.c:242 | every time and process id share their salt with a 16-bit id and a time, which are another pair exactly when the id has more than 16 bits |
| `Salt.NoReaderTells` | make_jail_etc.c:241-246 | no function of the salt recovers a wide process id: if it does, it fails on the pair that shares the salt |
| `AccountLines.SplitJoin` | make_jail_etc.c:187-198 | colon-separated fields read back exactly when no field holds the separator |
| `AccountLines.JoinSplit` | make_jail_etc.c:187-198 | joining the pieces of any string gives it back, and no piece holds the separator |
| `AccountLines.ReadsAsIs` | make_jail_etc.c:187-198 | exactly which text reads as which fields: the joined fields and a newline, every field clean |
| `AccountLines.PasswdReadsBack` | make_jail_etc.c:209-215 | the passwd line is one line of seven fields, home with its slash and decimal id included, exactly for clean name, home and shell |
| `AccountLines.ShadowReadsBack` | make_jail_etc.c:255-256 | the shadow line reads back as nine fields exactly for clean name and hash |
| `AccountLines.GroupReadsBack` | make_jail_etc.c:275 | the group line reads back as four fields exactly for a clean name |
| `AccountLines.ReadDecimalBack` | make_jail_etc.c:209-213 | the decimal text of any integer, negative too, reads back as it |
| `AccountLines.DecimalIs` | make_jail_etc.c:209-213 | %d digit by digit, sign first and without leading zeros |
| `AccountLines.GetShadowLine` | use-crypt.c:69-85 | the template is cut to the buffer and terminated, the rest of the buffer untouched |
| `AccountLines.ShadowTemplateFields` | use-crypt.c:69-85 | the template is nine empty fields exactly when the buffer holds nine characters |
| `RunArguments.Run.ParseInputArgs` | make_jail_etc.c:279-341 | over any option stream, the last use of each option before the first one that stops parsing wins, and the answer tells end, failure and help apart |
| `RunArguments.LastIs` | make_jail_etc.c:284-338 | the last use of an option: one that gives a value with none behind it that does |
| `RunArguments.PicksAre` | make_jail_etc.c:288-315 | which option gives which setting |
| `RunArguments.IsLineIs` | make_jail_etc.c:203-277 | the fields of each line, in order, from the settings |
| `RunArguments.Run.ValidateInputArgs` | make_jail_etc.c:133-183 | validation passes exactly for a kind with its user, plus a shell for passwd and a password for shadow, stated on the settings themselves |
| `RunArguments.Run.GetOutputFileStream` | make_jail_etc.c:107-112 | stdout without -o, else an emptied file or no stream |
| `RunArguments.Run.GenerateEtcPasswd` | make_jail_etc.c:203-222 | over both answers of fopen: the line is in place, or nothing is printed and -1 answered, or a null pointer is used with the file left empty |
| `RunArguments.Run.GenerateEtcShadow` | make_jail_etc.c:229-264 | the same for the shadow line |
| `RunArguments.Run.GenerateEtcGroup` | make_jail_etc.c:272-277 | the line is in place, or the one stream is missing and a null pointer is used |
| `RunArguments.Run.RunMain` | make_jail_etc.c:346-369 | over every option stream and all answers of fopen and crypt: a generator is called exactly when nothing stops parsing and the last uses give a kind and a user, for passwd a shell and for shadow a password; a null pointer is used exactly when stated; from command line to file, what was printed or written reads back as the last values given exactly when the stream was there and those values are there and clean |
| `RunArguments.RunReadsBack` | make_jail_etc.c:203-277 | over every stream that reaches a generator: the text handed to fprintf is there and reads back as the last values given exactly when those values are there and clean |
| `RunArguments.LineIsThere` | make_jail_etc.c:154-167 | over every stream that reaches a generator there is a line to print exactly when it is not a passwd line without a home directory or a shadow line without an answer of crypt |
| `RunArguments.ValidationSkipsHome` | make_jail_etc.c:154-167 | the witness: -P, -u and -s without -h pass validation and have no line to print |
| `Bitmap.FastSetBit` | e2fsprogs-1.42.8-binary/arm-cortexA8-linux-gnueabi/usr/include/ext2fs/bitops.h:242-248 | the set of one-bits, bit nr being (byte nr >> 3) >> (nr & 7) & 1, gains the index, and every other bit and byte stays |
| `Bitmap.FastClearBit` | e2fsprogs-1.42.8-binary/arm-cortexA8-linux-gnueabi/usr/include/ext2fs/bitops.h:250-256 | the same set loses the index, and every other bit and byte stays |
| `Bitmap.FastSetBit64` | e2fsprogs-1.42.8-binary/arm-cortexA8-linux-gnueabi/usr/include/ext2fs/bitops.h:259-265 | the 64-bit form has the effect of the 32-bit one, on every 64-bit index |
| `Bitmap.FastClearBit64` | e2fsprogs-1.42.8-binary/arm-cortexA8-linux-gnueabi/usr/include/ext2fs/bitops.h:267-273 | the 64-bit form has the effect of the 32-bit one, on every 64-bit index |
| `Bitmap.SetWidthsAgree` | e2fsprogs-1.42.8-binary/arm-cortexA8-linux-gnueabi/usr/include/ext2fs/bitops.h:242-265 | on an index both types hold, the two widths of set leave equal buffers equal |
| `Bitmap.ClearWidthsAgree` | e2fsprogs-1.42.8-binary/arm-cortexA8-linux-gnueabi/usr/include/ext2fs/bitops.h:250-273 | the same for clear |
| `Bitmap.SetBitIsInsert` | e2fsprogs-1.42.8-binary/arm-cortexA8-linux-gnueabi/usr/include/ext2fs/bitops.h:242-248 | or-ing one mask into one byte inserts exactly that index into the set of one-bits |
| `Bitmap.ClearBitIsRemove` | e2fsprogs-1.42.8-binary/arm-cortexA8-linux-gnueabi/usr/include/ext2fs/bitops.h:250-256 | and-ing one complemented mask removes exactly that index from the set |
| `Bitmap.MaskIsPower` | e2fsprogs-1.42.8-binary/arm-cortexA8-linux-gnueabi/usr/include/ext2fs/bitops.h:242-256 | the mask of bit k is 1 << k, the byte 2^k |
| `Bitmap.RunDecidesEveryBit` | e2fsprogs-1.42.8-binary/arm-cortexA8-linux-gnueabi/usr/include/ext2fs/bitops.h:242-273 | after any run of sets and clears a bit is one exactly when some operation set it and none behind cleared it, or it was one and none cleared it |
| `Bitmap.RunIsIdentity` | e2fsprogs-1.42.8-binary/arm-cortexA8-linux-gnueabi/usr/include/ext2fs/bitops.h:242-273 | a run gives the same bytes back exactly when every bit ends as it began |
| `Swab.Swab16Reverses` | e2fsprogs-1.42.8-binary/arm-cortexA8-linux-gnueabi/usr/include/ext2fs/bitops.h:359-362 | the 16-bit swap reverses the bytes and undoes itself |
| `Swab.Swab32Reverses` | e2fsprogs-1.42.8-binary/arm-cortexA8-linux-gnueabi/usr/include/ext2fs/bitops.h:364-368 | the 32-bit swap reverses the bytes and undoes itself |
| `Swab.Swab64Reverses` | e2fsprogs-1.42.8-binary/arm-cortexA8-linux-gnueabi/usr/include/ext2fs/bitops.h:372-376 | the 64-bit swap, built from two 32-bit ones, reverses the bytes and undoes itself |
| `Swab.MemoryIs` | e2fsprogs-1.42.8-binary/arm-cortexA8-linux-gnueabi/usr/include/ext2fs/bitops.h:13-39 | what lies in memory, byte by byte: low eight bits first on a little-endian host, last on a big-endian one |
| `Swab.ConversionIsPortable16` | e2fsprogs-1.42.8-binary/arm-cortexA8-linux-gnueabi/usr/include/ext2fs/bitops.h:13-39 | a converted number lies in memory in the target order on either kind of host, and converts back |
| `Swab.ConversionIsPortable32` | e2fsprogs-1.42.8-binary/arm-cortexA8-linux-gnueabi/usr/include/ext2fs/bitops.h:13-39 | the same for 32 bits |
| `Swab.ConversionIsPortable64` | e2fsprogs-1.42.8-binary/arm-cortexA8-linux-gnueabi/usr/include/ext2fs/bitops.h:13-39 | the same for 64 bits |
| `ChrootShell.Shell.RunMain` | chrootshell.c:114-211 | exec is reached exactly when USER and LOGNAME agree, argv[0] is the name behind the last slash of the login shell or that name behind one dash, and every call and allocation goes well; then with the stated calls, environment and arguments; a null pointer is used exactly when stated; every run keeps the order of the calls and stops at the first failure |
| `ChrootShell.UndashedIs` | chrootshell.c:145-150 | one leading dash is skipped and nothing else |
| `ChrootShell.UsesNullIs` | chrootshell.c:145-197 | exactly when a null pointer is used: no log file for the name test, no argv[0], no memory for the dashed name |
| `ChrootShell.DisciplinedIs` | chrootshell.c:136-206 | the calls of every run, one by one, each on the answer of the one before |
| `ChrootShell.Shell.SetEnv` | chrootshell.c:99-112 | a variable is appended in an allocation that it and its terminator fill exactly; overflow and lack of memory change nothing |
| `ChrootShell.Shell.FixEnvironment` | chrootshell.c:174-181 | the table holds exactly SHELL, HOME, PATH, USER and, for a non-empty LOGNAME, LOGNAME, and ends with a null entry |
| `ChrootShell.Shell.BuildArguments` | chrootshell.c:188-206 | the vector stays inside its argc + 3 places and is a dashed shell, or the shell with -c and the command, ended by a null entry |
| `ChrootShell.Shell.EnterJail` | chrootshell.c:154-169 | the jail is entered exactly when all five calls succeed, in order |
| `ChrootShell.AfterLastSlashIs` | chrootshell.c:141-144 | what follows the last slash, characterised by the string itself |
| `Cluster.ClusterRoundTrip` | e2fsprogs-1.42.8-binary/arm-cortexA8-linux-gnueabi/usr/include/ext2fs/ext2fs.h:604-608 | cluster to block and back is the identity exactly for clusters whose blocks have numbers |
| `Cluster.BlockInCluster` | e2fsprogs-1.42.8-binary/arm-cortexA8-linux-gnueabi/usr/include/ext2fs/ext2fs.h:604-608 | every block lies in its cluster; the next cluster's start bounds it except in the last cluster, where that wraps |
| `Cluster.NumB2CIsCeiling` | e2fsprogs-1.42.8-binary/arm-cortexA8-linux-gnueabi/usr/include/ext2fs/ext2fs.h:610-611 | NUM_B2C is the ceiling exactly when adding the mask does not wrap |
| `Cluster.DivCeilIsCeiling` | e2fsprogs-1.42.8-binary/arm-cortexA8-linux-gnueabi/usr/include/ext2fs/ext2fs.h:1703-1715 | div_ceil is the least k with k * b >= a, and never exceeds a |
| `Cluster.OverflowsIsExact` | e2fsprogs-1.42.8-binary/arm-cortexA8-linux-gnueabi/usr/include/ext2fs/ext2fs.h:1531 | the division test rejects exactly the pairs whose product exceeds the word |
| `Cluster.GetArray` | e2fsprogs-1.42.8-binary/arm-cortexA8-linux-gnueabi/usr/include/ext2fs/ext2fs.h:1529-1534 | the pointer becomes a block of count * size bytes exactly when that fits and memory is there, and is untouched otherwise |
| `ExtAttr.WalkIsExact` | e2fsprogs-1.42.8-binary/arm-cortexA8-linux-gnueabi/usr/include/ext2fs/ext2_ext_attr.h:38-49 | entries laid out at padded lengths before a zero word are walked in order, names and headers intact, up to the first whose first word is zero, and to the end if and only if there is none |
| `ExtAttr.WriteThenWalk` | e2fsprogs-1.42.8-binary/arm-cortexA8-linux-gnueabi/usr/include/ext2fs/ext2_ext_attr.h:38-49 | writing a list of entries anywhere in a block and walking it gives the list back, up to the same entry and under the same condition |
| `ExtAttr.EntryIs` | e2fsprogs-1.42.8-binary/arm-cortexA8-linux-gnueabi/usr/include/ext2fs/ext2_ext_attr.h:38-49 | an entry byte by byte, padded with zeros, and which word looks last |
| `ExtAttr.WalkIsTheMacros` | e2fsprogs-1.42.8-binary/arm-cortexA8-linux-gnueabi/usr/include/ext2fs/ext2_ext_attr.h:38-49 | over any memory around the block, the bounded walk has k entries exactly when the macros, which test no bounds, stop at step k with every word they test inside the block, and they lie where the macros step |
| `ExtAttr.WalkIsAligned` | e2fsprogs-1.42.8-binary/arm-cortexA8-linux-gnueabi/usr/include/ext2fs/ext2_ext_attr.h:38-49 | over any block, a walk that does not leave it visits 4-aligned entries at least 16 bytes apart |
| `ExtAttr.LaidOutStaysInside` | e2fsprogs-1.42.8-binary/arm-cortexA8-linux-gnueabi/usr/include/ext2fs/ext2_ext_attr.h:38-49 | over entries laid out before a zero word the walk needs no bounds test: every entry it visits lies inside the block, 4-aligned and right behind the one before, and so does the word that ends it, early or late |

## Left out

- Asn1I2d.I2d: asks for encodings below 2^31 octets, because `ret` and `r` are `int` and the code does not detect their overflow.
- Asn1D2i.D2i: components are values, so aliasing between them is not captured; a primitive d2i function is taken to leave its object alone when it fails.
- Asn1Object.D2iObject: tracks the allocation and freeing of the outermost object; the objects that callees allocate and free for components are values.
- Asn1Octets.GetPutObject: covers identifiers of one octet, since the macros compare a single octet; high tag numbers are refused by the header reader.
- Bignum.WordsForIsLeast: takes the number of bits as unbounded; the `int` sum in bn_expand overflows within 31 of its maximum, which the code does not detect.
- The SET OF and SEQUENCE OF macros, which call functions that are only declared, and the variants that differ from the modelled macros in a cast only.
- The error queue (`ASN1_MAC_H_err`, `asn1_add_error`) and the line numbers; the error code is modelled.
- `c.max`, `c.tag`, `c.xclass` and `c.eos`, which only the declared helpers read.
- `bn_pollute` and the debug forms of the bignum macros; `bn_expand2` is only declared.
- The i386 assembly of `bitops.h`, which the ARM build does not use, and the wrappers that forward to external bitmap code.
- Messages on stderr, and what `use-crypt.c` does with its streams.
- Execution after execvp returns: it only reports and exits.
- EXT2_XATTR_LEN, whose structure is not declared, and EXT2_EXT_ATTR_SIZE, the padding of values.
- The argument count check of `use-crypt.c`, and its six flags and dates that no function reads.
- Error tables, platform detection, flag setters and structure-only headers: nothing but easy members.
