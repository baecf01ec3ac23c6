# Ignition config generator — a Dafny model

This project models `stages/16-manual-install-runbook/scripts/40-gen-ignition.py`. The script writes one Ignition (config version 3.2.0) first-boot document per node of a six-node Kubernetes cluster: a bootstrap node, three masters and two workers. The model covers the whole script:

- **Env**: the environment check. Eight variables are required. A missing one aborts the run with a message that lists every missing variable in declared order. On success the check yields the host list (bootstrap, master0–2, worker0–1) and the control-plane list, which is bootstrap plus the three masters.
- **Base64**, **Utf8**, and **Ignition**'s `DataUri`, `FileEntry` and `InlineEntry`: the content encoder.
  - Base64 is the standard alphabet with `=` padding, as in section 4 of RFC 4648.
  - UTF-8 is encoded as in RFC 3629.
  - The result is wrapped in a `data:text/plain;base64,` URI, as in RFC 2397.
  - Each codec has a strict decoder, proved to be a two-sided inverse of its encoder. Decoding an encoding gives the input back, and every input the decoder accepts is the encoding of what it decodes to. So every entry's payload can be read back.
- **Ignition**: the per-node assembler.
  - The disk is an input value: readable files with their bytes, and directories with their listings.
  - Every entry read from disk is a `Planned` triple (destination, source, mode). `NodePlan` is a node's list of such triples, in append order. `NodeConfig` reads them in order and fails on the first source that cannot be read.
  - `IgnitionForNode` builds the document by appending entries one by one, as the script does. It is proved equal to `NodeConfig`.
- **PlanFacts** and **DocumentFacts**: what a node's plan and document hold. This covers the leading entries, the optional kubelet kubeconfig, the 22-entry control-plane block with its modes, the manifests, what a worker never receives, the fixed directories, unit and version, and when generation fails.
- **Output**: the output loop. `IgnitionDir` holds the files written so far, by name. `WriteAll` generates and writes `<node>.ign` for each host in order and stops at the first failure. `Generate` runs the environment check first and writes nothing when it fails.

The code installs 11 cluster PKI files (lines 100–110) and 9 etcd files (lines 113–121): 6 named after the node and 3 shared.

Modes are the integers 420 (0o644) and 384 (0o600). Source locations are keys relative to the stage directory, such as `config/kubelet-config.yaml` and `generated/pki/ca.crt`.

## Model

| member | source | states |
|---|---|---|
| Env.Missing | stages/16-manual-install-runbook/scripts/40-gen-ignition.py:25 | a key is reported exactly when it is required and absent from the environment; no more keys than required |
| Env.MissingAppend | stages/16-manual-install-runbook/scripts/40-gen-ignition.py:25 | collecting absent keys keeps their declared order (distributes over concatenation) |
| Env.MissingNone | stages/16-manual-install-runbook/scripts/40-gen-ignition.py:25-26 | with every key present nothing is reported |
| Env.MissingAll | stages/16-manual-install-runbook/scripts/40-gen-ignition.py:25-27 | with no key present every key is reported, in order |
| Env.Validate | stages/16-manual-install-runbook/scripts/40-gen-ignition.py:15-46 | fails exactly when some required variable is absent (empty values accepted); the message is "Missing env vars: " followed by the absent keys joined by ", "; on success every variable is present |
| Env.Join | stages/16-manual-install-runbook/scripts/40-gen-ignition.py:27 | a single part is joined to itself; `Env.JoinSnoc` states how further parts follow |
| Env.JoinSnoc | stages/16-manual-install-runbook/scripts/40-gen-ignition.py:27 | joining one more part appends one more separator and that part |
| Env.ValidatedContext | stages/16-manual-install-runbook/scripts/40-gen-ignition.py:29-46 | domain and SSH key come from their variables; the six hosts are BOOTSTRAP, MASTER0-2, WORKER0-1 in that order; the control plane is the first four hosts |
| Env.OnlySshKeyMissing | stages/16-manual-install-runbook/scripts/40-gen-ignition.py:25-27 | omitting only SSH_PUB_KEY gives exactly "Missing env vars: SSH_PUB_KEY" |
| Env.EmptyEnvironment | stages/16-manual-install-runbook/scripts/40-gen-ignition.py:25-27 | an empty environment lists all eight variables in declared order |
| Base64.IndexOfCharOf | stages/16-manual-install-runbook/scripts/40-gen-ignition.py:63-64 | the 64-character alphabet gives every sextet a character that maps back to it |
| Base64.CharOfIndexOf | stages/16-manual-install-runbook/scripts/40-gen-ignition.py:63-64 | every alphabet character is the character of its own sextet |
| Base64.Encode | stages/16-manual-install-runbook/scripts/40-gen-ignition.py:63-64 | the encoding of n bytes has length 4*ceil(n/3), alphabet characters only, followed by exactly the RFC 4648 padding count of '=' |
| Base64.Decode | stages/16-manual-install-runbook/scripts/40-gen-ignition.py:63-64 | a string the strict decoder accepts has length 4*ceil(n/3) for the n bytes it yields |
| Base64.DecodeEncode | stages/16-manual-install-runbook/scripts/40-gen-ignition.py:63-64 | decoding the encoding of any byte string, empty included, gives it back |
| Base64.EncodeDecode | stages/16-manual-install-runbook/scripts/40-gen-ignition.py:63-64 | every accepted string is the encoding of what it decodes to (the encoding is canonical) |
| Base64.EncodeInjective | stages/16-manual-install-runbook/scripts/40-gen-ignition.py:63-64 | different byte strings have different encodings |
| Base64.EncodeVectorsPadded | stages/16-manual-install-runbook/scripts/40-gen-ignition.py:63-64 | RFC 4648 section 10 vectors: "f" encodes as "Zg==" and "fo" as "Zm8=" |
| Base64.EncodeVectorBar | stages/16-manual-install-runbook/scripts/40-gen-ignition.py:63-64 | RFC 4648 section 10 vector: "bar" encodes as "YmFy" |
| Base64.EncodeVectorFull | stages/16-manual-install-runbook/scripts/40-gen-ignition.py:63-64 | RFC 4648 section 10 vector: "foobar" encodes as "Zm9vYmFy" |
| Utf8.EncodeChar | stages/16-manual-install-runbook/scripts/40-gen-ignition.py:77 | a code point takes 1 to 4 bytes, one byte exactly when it is below 128, and that byte is the code point |
| Utf8.Encode | stages/16-manual-install-runbook/scripts/40-gen-ignition.py:77 | a text of n characters takes between n and 4n bytes |
| Utf8.EncodeAscii | stages/16-manual-install-runbook/scripts/40-gen-ignition.py:77 | ASCII text encodes byte for byte |
| Utf8.DecodeEncode | stages/16-manual-install-runbook/scripts/40-gen-ignition.py:77 | decoding the UTF-8 encoding of any text gives the text back |
| Utf8.Decode | stages/16-manual-install-runbook/scripts/40-gen-ignition.py:77 | a text the strict decoder yields has no more characters than the bytes it came from |
| Utf8.EncodeDecode | stages/16-manual-install-runbook/scripts/40-gen-ignition.py:77 | every byte string the strict decoder accepts is the UTF-8 encoding of the text it decodes to |
| Utf8.EncodeVectors | stages/16-manual-install-runbook/scripts/40-gen-ignition.py:77 | U+20AC (the euro sign) encodes as E2 82 AC and U+1F600 as F0 9F 98 80, as in RFC 3629 |
| Ignition.DataUri | stages/16-manual-install-runbook/scripts/40-gen-ignition.py:72 | the source starts with "data:text/plain;base64," |
| Ignition.DataUriPayload | stages/16-manual-install-runbook/scripts/40-gen-ignition.py:72 | the payload of a data URI decodes to exactly the octets it was built from |
| Ignition.FileEntry | stages/16-manual-install-runbook/scripts/40-gen-ignition.py:67-73 | succeeds exactly when the source is a readable file; keeps path and mode; a failure names the source |
| Ignition.FileEntryPayload | stages/16-manual-install-runbook/scripts/40-gen-ignition.py:67-73 | a file entry carries exactly its source's bytes |
| Ignition.InlineEntry | stages/16-manual-install-runbook/scripts/40-gen-ignition.py:76-82 | keeps path and mode |
| Ignition.InlineEntryPayload | stages/16-manual-install-runbook/scripts/40-gen-ignition.py:76-82 | an inline entry carries the UTF-8 bytes of its text, which read back as that text |
| Ignition.HostnameEntry | stages/16-manual-install-runbook/scripts/40-gen-ignition.py:87 | the first inline entry goes to /etc/hostname with mode 0o644 |
| Ignition.HostnameText | stages/16-manual-install-runbook/scripts/40-gen-ignition.py:87 | its text is "<node>.<domain>" and a newline |
| Ignition.AuthorizedKeysEntry | stages/16-manual-install-runbook/scripts/40-gen-ignition.py:88 | the second inline entry goes to /home/core/.ssh/authorized_keys with mode 0o600 |
| Ignition.AuthorizedKeysText | stages/16-manual-install-runbook/scripts/40-gen-ignition.py:88 | its text is the SSH public key and a newline |
| Ignition.KubeletPlan | stages/16-manual-install-runbook/scripts/40-gen-ignition.py:93-96 | at most one triple, present exactly when kubelet-<node>.kubeconfig exists, installing it at /etc/kubernetes/kubelet.kubeconfig with mode 0o600 |
| Ignition.Table | stages/16-manual-install-runbook/scripts/40-gen-ignition.py:100-125 | one triple per artifact of a control-plane table |
| Ignition.ControlPlaneFiles | stages/16-manual-install-runbook/scripts/40-gen-ignition.py:98-125 | the control-plane block has exactly 22 entries |
| Ignition.YamlNames | stages/16-manual-install-runbook/scripts/40-gen-ignition.py:130 | a name is kept exactly when it is listed and matches `*.yaml` |
| Ignition.YamlNamesAppend | stages/16-manual-install-runbook/scripts/40-gen-ignition.py:130 | filtering keeps listing order: the names kept from a concatenation are those kept from each part, in order |
| Ignition.YamlNamesSingle | stages/16-manual-install-runbook/scripts/40-gen-ignition.py:130 | a single listed name is kept, once, exactly when it matches `*.yaml` |
| Ignition.YamlNamesNoDups | stages/16-manual-install-runbook/scripts/40-gen-ignition.py:130 | a listing without repeated names keeps none after filtering |
| Ignition.ManifestFiles | stages/16-manual-install-runbook/scripts/40-gen-ignition.py:127-131 | one manifest entry per matching name |
| Ignition.ManifestPlan | stages/16-manual-install-runbook/scripts/40-gen-ignition.py:127-131 | no triple without the manifest directory; otherwise one per name `YamlNames` keeps, in that order |
| Ignition.ControlPlanePlan | stages/16-manual-install-runbook/scripts/40-gen-ignition.py:98-131 | nothing for a worker; for a control-plane node the 22-entry block followed by its manifests |
| Ignition.ControlPlaneFilesFor | stages/16-manual-install-runbook/scripts/40-gen-ignition.py:98-125 | definition: the 22-entry block for control-plane nodes, nothing otherwise; `Ignition.ControlPlanePlanParts` relates it to the plan |
| Ignition.ManifestPlanFor | stages/16-manual-install-runbook/scripts/40-gen-ignition.py:127-131 | definition: the manifests for control-plane nodes, nothing otherwise; `Ignition.ControlPlanePlanParts` relates it to the plan |
| Ignition.ControlPlanePlanParts | stages/16-manual-install-runbook/scripts/40-gen-ignition.py:98-131 | the control-plane plan is the block followed by the manifests, each for control-plane nodes only |
| Ignition.NodePlan | stages/16-manual-install-runbook/scripts/40-gen-ignition.py:90-131 | definition: the triples read from disk, in append order; `PlanFacts.NodePlanLayout` states its layout |
| Ignition.ReadAll | stages/16-manual-install-runbook/scripts/40-gen-ignition.py:90-131 | a successful read gives one entry per triple |
| Ignition.ReadAllOk | stages/16-manual-install-runbook/scripts/40-gen-ignition.py:90-131 | reading succeeds exactly when every source is readable, and entry i is then `file_entry` of triple i |
| Ignition.ReadAllErr | stages/16-manual-install-runbook/scripts/40-gen-ignition.py:67-68 | a failed read reports the first unreadable source |
| Ignition.ReadAllAppend | stages/16-manual-install-runbook/scripts/40-gen-ignition.py:90-131 | reading a concatenation is the first part's error, else the second's, else both results in order |
| Ignition.DirectoryEntries | stages/16-manual-install-runbook/scripts/40-gen-ignition.py:136 | one directory entry per DIRECTORIES path, in order |
| Ignition.NodeConfig | stages/16-manual-install-runbook/scripts/40-gen-ignition.py:85-145 | definition: the inline entries, then the plan read in order, or the first read error; `Ignition.IgnitionForNode` and the `DocumentFacts` lemmas (FixedFields, DocumentSucceeds, DocumentFails, DocumentMatchesPlan) state its properties |
| Ignition.AppendEntries | stages/16-manual-install-runbook/scripts/40-gen-ignition.py:90-91 | the append loop gives the given entries followed by the entries read from the plan, or the plan's read error |
| Ignition.NodeConfigStages | stages/16-manual-install-runbook/scripts/40-gen-ignition.py:85-145 | reading the template, kubelet, control-plane and manifest stages one after another gives the same document or error as reading the node's plan at once |
| Ignition.IgnitionForNode | stages/16-manual-install-runbook/scripts/40-gen-ignition.py:85-145 | the step-by-step assembly gives exactly the node's document or its first read error |
| PlanFacts.PrivateNotPublic | stages/16-manual-install-runbook/scripts/40-gen-ignition.py:100-125 | no path is both a secret (.key, .kubeconfig) and public material (.crt, .pub) |
| PlanFacts.TablesClassified | stages/16-manual-install-runbook/scripts/40-gen-ignition.py:100-125 | every artifact of the four tables is a secret with mode 0o600 or public material with mode 0o644 |
| PlanFacts.TableClassified | stages/16-manual-install-runbook/scripts/40-gen-ignition.py:100-125 | a table entry's destination has its artifact's kind and mode |
| PlanFacts.ControlPlaneModes | stages/16-manual-install-runbook/scripts/40-gen-ignition.py:100-125 | every control-plane entry is a secret or public; secrets have mode 0o600 and public material 0o644 |
| PlanFacts.TableUnder | stages/16-manual-install-runbook/scripts/40-gen-ignition.py:100-125 | a table installs under its destination directory from its source directory |
| PlanFacts.ControlPlanePki | stages/16-manual-install-runbook/scripts/40-gen-ignition.py:100-110 | the first 11 entries go under /etc/kubernetes/pki/ from generated/pki/ |
| PlanFacts.ControlPlaneEtcd | stages/16-manual-install-runbook/scripts/40-gen-ignition.py:113-121 | the next 9 go under /etc/kubernetes/pki/etcd/; the first 6 of them are named after the node |
| PlanFacts.ControlPlaneKubeconfigs | stages/16-manual-install-runbook/scripts/40-gen-ignition.py:124-125 | the last two are the controller manager's and scheduler's kubeconfigs, mode 0o600 |
| PlanFacts.EtcdUnderPki | stages/16-manual-install-runbook/scripts/40-gen-ignition.py:113-121 | paths under /etc/kubernetes/pki/etcd/ are under /etc/kubernetes/pki/ |
| PlanFacts.ControlPlaneNotKubelet | stages/16-manual-install-runbook/scripts/40-gen-ignition.py:96-125 | no control-plane entry goes to /etc/kubernetes/kubelet.kubeconfig |
| PlanFacts.ControlPlaneNotManifest | stages/16-manual-install-runbook/scripts/40-gen-ignition.py:98-125 | no control-plane entry goes under /etc/kubernetes/manifests/ |
| PlanFacts.ManifestEntries | stages/16-manual-install-runbook/scripts/40-gen-ignition.py:127-131 | no manifest entry without the directory; otherwise entry j installs listed `*.yaml` name j at /etc/kubernetes/manifests/<name> from the directory, mode 0o644 |
| PlanFacts.ManifestNamesCovered | stages/16-manual-install-runbook/scripts/40-gen-ignition.py:129-131 | a name gets a manifest entry exactly when it is listed and matches `*.yaml` |
| PlanFacts.ManifestExactlyOne | stages/16-manual-install-runbook/scripts/40-gen-ignition.py:129-131 | in a directory listing each name once, every listed `*.yaml` name has exactly one manifest entry |
| PlanFacts.NodePlanLayout | stages/16-manual-install-runbook/scripts/40-gen-ignition.py:90-131 | the plan is the two template files, the kubelet kubeconfig exactly when it exists, then for control-plane nodes only the 22-entry block and the manifests |
| PlanFacts.TemplateDests | stages/16-manual-install-runbook/scripts/40-gen-ignition.py:48-51 | the template files go neither under pki/ nor manifests/, nor to kubelet.kubeconfig |
| PlanFacts.DropInNotKubernetes | stages/16-manual-install-runbook/scripts/40-gen-ignition.py:50 | the systemd drop-in is outside /etc/kubernetes/ |
| PlanFacts.KubeletDestApart | stages/16-manual-install-runbook/scripts/40-gen-ignition.py:96 | /etc/kubernetes/kubelet.kubeconfig is neither under pki/ nor manifests/ |
| PlanFacts.KubeletEntry | stages/16-manual-install-runbook/scripts/40-gen-ignition.py:93-96 | the plan installs /etc/kubernetes/kubelet.kubeconfig exactly when kubelet-<node>.kubeconfig exists |
| PlanFacts.WorkerPlan | stages/16-manual-install-runbook/scripts/40-gen-ignition.py:98-131 | a worker is planned nothing under pki/ and no manifest |
| PlanFacts.NoManifestDirectory | stages/16-manual-install-runbook/scripts/40-gen-ignition.py:127-131 | without its manifest directory a node, of either role, is planned nothing under manifests/ |
| DocumentFacts.FixedFields | stages/16-manual-install-runbook/scripts/40-gen-ignition.py:133-144 | version "3.2.0", the six DIRECTORIES in order, units exactly [kubelet.service enabled] |
| DocumentFacts.DocumentSucceeds | stages/16-manual-install-runbook/scripts/40-gen-ignition.py:85-131 | a node's document is produced exactly when every planned source is readable |
| DocumentFacts.DocumentFails | stages/16-manual-install-runbook/scripts/40-gen-ignition.py:67-68 | otherwise the error names the first unreadable planned source |
| DocumentFacts.DocumentMatchesPlan | stages/16-manual-install-runbook/scripts/40-gen-ignition.py:85-131 | after the two inline entries, entry 2+i has triple i's destination, mode and exactly its source's bytes |
| DocumentFacts.InlineEntries | stages/16-manual-install-runbook/scripts/40-gen-ignition.py:87-88 | entry 0 is /etc/hostname holding "<node>.<domain>\n", mode 0o644; entry 1 is /home/core/.ssh/authorized_keys holding the key and a newline, mode 0o600 |
| DocumentFacts.TemplateEntries | stages/16-manual-install-runbook/scripts/40-gen-ignition.py:90-91 | entries 2 and 3 are the two template files, in order, mode 0o644, with their bytes |
| DocumentFacts.InlineDestsApart | stages/16-manual-install-runbook/scripts/40-gen-ignition.py:87-88 | the two inline entries lie outside /etc/kubernetes/ |
| DocumentFacts.KubernetesPathIn | stages/16-manual-install-runbook/scripts/40-gen-ignition.py:85-131 | a path under /etc/kubernetes/ is in the document exactly when it is in the plan |
| DocumentFacts.KubeletKubeconfigEntry | stages/16-manual-install-runbook/scripts/40-gen-ignition.py:93-96 | /etc/kubernetes/kubelet.kubeconfig is in the document exactly when kubelet-<node>.kubeconfig exists; then it is entry 4, mode 0o600, with that file's bytes |
| DocumentFacts.ControlPlaneEntries | stages/16-manual-install-runbook/scripts/40-gen-ignition.py:98-125 | a control-plane document holds 26+k+m entries, where k counts the kubelet kubeconfig and m the manifests; entries 4+k to 25+k are the 22 block entries in order, with their bytes |
| DocumentFacts.BlockModes | stages/16-manual-install-runbook/scripts/40-gen-ignition.py:100-125 | entries that repeat classified triples are classified the same way |
| DocumentFacts.ControlPlaneDocumentModes | stages/16-manual-install-runbook/scripts/40-gen-ignition.py:100-125 | in that block each entry is a secret with mode 0o600 or public material with mode 0o644 |
| DocumentFacts.ManifestDocumentEntries | stages/16-manual-install-runbook/scripts/40-gen-ignition.py:127-131 | a control-plane document ends with its manifest entries in plan order, with their bytes |
| DocumentFacts.OutsideDirectory | stages/16-manual-install-runbook/scripts/40-gen-ignition.py:85-131 | the document avoids a directory under /etc/kubernetes/ when the plan does |
| DocumentFacts.WorkerDocument | stages/16-manual-install-runbook/scripts/40-gen-ignition.py:98-131 | a worker's document holds 4+k entries and nothing under pki/ or manifests/ |
| DocumentFacts.NoManifestEntries | stages/16-manual-install-runbook/scripts/40-gen-ignition.py:127-131 | without the manifest directory no entry is installed under /etc/kubernetes/manifests/ |
| Output.OutNameInjective | stages/16-manual-install-runbook/scripts/40-gen-ignition.py:153 | different node names give different `<node>.ign` names |
| Output.OutName | stages/16-manual-install-runbook/scripts/40-gen-ignition.py:153 | the file name is the node name followed by ".ign" |
| Output.ResultsAt | stages/16-manual-install-runbook/scripts/40-gen-ignition.py:151-152 | result i of the run is host i's document or error |
| Output.ResultsConsistent | stages/16-manual-install-runbook/scripts/40-gen-ignition.py:151-152 | equal node names give equal results |
| Output.Results | stages/16-manual-install-runbook/scripts/40-gen-ignition.py:151-152 | one result per host; `Output.ResultsAt` states that result i is host i's |
| Output.FirstFailure | stages/16-manual-install-runbook/scripts/40-gen-ignition.py:151-152 | every host before the stopping point succeeds, and the host at it fails |
| Output.FirstFailureAt | stages/16-manual-install-runbook/scripts/40-gen-ignition.py:151-152 | before the stopping point, a failure at host i means the run stops at i |
| Output.Outputs | stages/16-manual-install-runbook/scripts/40-gen-ignition.py:154 | definition: the files written for the hosts, in order; `Output.OutputsContents` and `Output.WrittenDocuments` state which files it holds and what each holds |
| Output.OutputsContents | stages/16-manual-install-runbook/scripts/40-gen-ignition.py:151-154 | the written keys are exactly the hosts' `<node>.ign` names, each holding its own node's document, even when a name repeats |
| Output.WrittenDocuments | stages/16-manual-install-runbook/scripts/40-gen-ignition.py:151-154 | after a run that stops at host k, exactly the files of hosts before k are written, each with its node's result |
| Output.IgnitionDir.Generate1 | stages/16-manual-install-runbook/scripts/40-gen-ignition.py:152 | generating host i's document gives result i |
| Output.IgnitionDir.WriteAll | stages/16-manual-install-runbook/scripts/40-gen-ignition.py:151-154 | adds the documents of the hosts before the first failure to what was there; succeeds exactly when no host fails; otherwise returns that host's read error |
| Output.IgnitionDir.Generate | stages/16-manual-install-runbook/scripts/40-gen-ignition.py:25-154 | a missing variable writes nothing and reports the message; otherwise behaves as WriteAll |

## Left out

- Real I/O is not modelled. `read_bytes`, `exists`, `glob`, `mkdir`, `write_text` and the final `print` become values: a `Disk` input and the `written` map of `IgnitionDir`. Which bytes a read returns, and directory creation, are outside the model.
- The order `Path.glob` lists a directory in depends on the filesystem. The listing is an input sequence and no sorted order is claimed.
- `*.yaml` matching is modelled as a name ending in ".yaml". A matching subdirectory is listed but not readable, so it fails the run, as `read_bytes` does.
- JSON rendering (`json.dumps(..., indent=2)`) is left out. Documents are `Config` values, not text.
- `ROOT_DIR` resolution is left out. Source locations are opaque keys relative to the stage directory.
- `Exists`: a kubelet kubeconfig path that exists as a directory is treated as present, then fails to read, as in the script. Read errors other than a missing or unreadable source (permissions, encoding) are not distinguished.
- Unique destination paths are not proved, because they do not hold unconditionally. A node named `apiserver-etcd` makes line 117 produce the same path as line 120. Duplicate node names in the environment are allowed. They write the same file twice with the same document.
- Ignition.ControlPlaneFiles: the 22 separate append statements are modelled as four tables (PKI, node etcd, shared etcd, kubeconfigs) appended by the `AppendEntries` loop. `PlanFacts.ControlPlaneKubeconfigs` and the table constants fix every name, mode and source.
- Utf8.Encode: the model cannot represent strings holding lone surrogates, because a Dafny `char` is a Unicode scalar value. Python's `os.environ` produces such strings from bytes that are not valid UTF-8 (`surrogateescape`), and line 77 then raises `UnicodeEncodeError`. That raise is not modelled.
- The exit status and the stderr output of `SystemExit` are modelled as the `Err` result and its message.
- The success line printed at line 156 is left out.
- Output file names are opaque keys `node + ".ign"`. Line 153 joins them to the output directory with `pathlib`. Path normalisation is not modelled: node names such as `a` and `./a` name the same file, an absolute node name writes outside the directory, and a name with `/` whose subdirectory is missing makes `write_text` raise. `Output.OutNameInjective` and `Output.OutputsContents` speak of these keys, not of files on disk.
- PlanFacts.ManifestExactlyOne: the disk model does not force a directory listing to name each entry once. The lemma takes that as its precondition, as a real directory guarantees.
