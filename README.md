# Face matching in the `/classify` handler

This project models the decision the backend's `/classify` endpoint makes once the
uploaded image has been run through face detection:

- If the image has no faces, the reply is "No faces detected in the uploaded image".
- If the `known_faces` path does not exist, the reply is the error "Known faces directory not found".
- If its listing is empty, the reply is the error "No known faces in the directory".
- Otherwise the nested matching loop builds `matchedImages`. For each detected query face, in detection order, and each known-face file, in listing order, it scans that file's descriptors. On the first one whose distance to the query descriptor is strictly below `0.6`, it appends the file name and stops scanning that file.
- A non-empty list gives "Match found in the following images: " followed by the names joined with ", ". An empty list gives "No match found in the database".

Modules:

- `Matching` (`matching.dfy`): the descriptors, the threshold, the specification of `matchedImages` (`FaceMatches`, `MatchedImages`), the loop itself (`MatchAll`, with the `break`), and lemmas about membership, multiplicity, order and size.
- `Response` (`response.dfy`): the reply texts, `Join` (JavaScript's `join(', ')`) and its inverse `Split` for names without commas.
- `Handler` (`handler.dfy`): the outcome cascade as a specification function (`Decide`), the reply it renders (`Render`), the handler body as a method (`Classify`), the read-back of replies (`Parse`), and lemmas for concrete scenarios.

Face detection is a deterministic parameter `detect: FileName -> seq<Descriptor>`. The library's Euclidean distance is an uninterpreted parameter `dist`. So every property holds for every detector and every distance function. The descriptors of the uploaded image are a parameter `queries`. The directory is `Missing` or `Listing(files)`.

The handler does not deduplicate. It runs detection on every known file again for each query face. When no listed file yields a face it answers "No match found in the database". The model does the same:
- a file hit by k query faces is listed k times (`MatchedImagesCount`, `DuplicatesKept`);
- a non-empty listing whose files yield no face gives "No match found in the database" (`FacelessGalleryIsNoMatch`);
- detection of a known file is one call of the deterministic `detect` per (query face, file) pair.

## Model

| member | source | states |
|---|---|---|
| Matching.MatchAll | Backend/server.js:110-135 | the nested loops with the early `break` build exactly `MatchedImages`: per query face in detection order, the listed files in listing order that have some descriptor strictly closer than 0.6 |
| Matching.FaceMatchesMember | Backend/server.js:122-131 | a file is appended for a query face iff it is listed and one of its detected descriptors is at distance < 0.6 (exactly 0.6 is no hit) |
| Matching.MatchedImagesMember | Backend/server.js:113-131 | a file is in `matchedImages` iff it is listed and some query face hits one of its descriptors |
| Matching.NoFaceFileNeverMatched | Backend/server.js:122 | a known file in which no face is detected never appears in `matchedImages` |
| Matching.MatchedImagesEmpty | Backend/server.js:110-135 | `matchedImages` is empty iff no (query face, listed file) pair has a descriptor within the threshold |
| Matching.FaceMatchesBound | Backend/server.js:124-131 | one query face contributes at most as many entries as there are listed files (the per-file count is `FaceMatchesCount`) |
| Matching.MatchedImagesBound | Backend/server.js:113-131 | `matchedImages` has at most (number of query faces) * (number of listed files) entries |
| Matching.FaceMatchesCount | Backend/server.js:115-131 | over a listing without repeated names, one query face contributes a file once if it is a hit and not at all otherwise |
| Matching.MatchedImagesCount | Backend/server.js:113-129 | no deduplication: a listed file occurs in `matchedImages` exactly as often as the number of query faces that hit it |
| Matching.CountMatchingAppend | Backend/server.js:113-129 | the number of query faces hitting a file is the sum over consecutive groups of query faces |
| Matching.CountMatchingPositive | Backend/server.js:113-129 | the number of query faces hitting a file is positive iff some query face hits it |
| Matching.FaceMatchesAppend | Backend/server.js:115 | listing order: the entries for earlier files precede those for later files |
| Matching.MatchedImagesAppend | Backend/server.js:113 | detection-major order: the entries of earlier query faces precede those of later query faces |
| Response.SplitJoin | Backend/server.js:143 | `Join`, which models `matchedImages.join(', ')`, is undone by `Split` for every non-empty list of comma-free names |
| Response.SplitJoinExactly | Backend/server.js:143 | a non-empty list of names is recovered from its joined text exactly when no name contains a comma (every piece `Split` returns is comma-free); the empty list joins to "" and does not come back |
| Response.SplitCommaFree | Backend/server.js:143 | every piece that splitting a reply's name list returns is free of commas |
| Handler.Decide | Backend/server.js:95-146 | the checks in the handler's order: no faces iff no query descriptors; directory missing and empty listing only after faces were found; a match carries the non-empty `matchedImages`; "no match" iff faces, a non-empty listing and no pair within the threshold |
| Handler.Render | Backend/server.js:95-146 | exactly the two directory failures are error replies; a match reply is the prefix followed by the joined names |
| Handler.Classify | Backend/server.js:95-146 | the handler body from detection on replies with `Render(Decide(...))` for every input |
| Handler.ParseRender | Backend/server.js:95-146 | every outcome with a non-empty list of comma-free names is read back from its reply, so the five outcomes give distinct replies |
| Handler.RepliesDistinct | Backend/server.js:101-108 | two such outcomes with the same reply are equal; in particular the directory failures differ from each other and from "no match" |
| Handler.DecideReadable | Backend/server.js:142-143 | when no listed name contains a comma, every outcome the handler decides can be read back from its reply |
| Handler.NoFacesWhateverDirectory | Backend/server.js:95-108 | zero query detections give "No faces detected in the uploaded image" whatever the directory state |
| Handler.FacelessGalleryIsNoMatch | Backend/server.js:105-146 | a non-empty listing whose files all yield no face gives "No match found in the database", not an error |
| Handler.PartialMatchStillMatches | Backend/server.js:113-143 | two query faces, only one within the threshold of the single known face, give a match naming that file once |
| Handler.DuplicatesKept | Backend/server.js:113-143 | two query faces both within the threshold of the same known file list that file twice |

## Left out

- Express and multer request handling, CORS, the HTTP status codes, the missing-upload 400 reply and `app.listen` (Backend/server.js:1-14, 78-84, 153-156). These are transport. The model keeps only the difference between a `result` body and an `error` body.
- Downloading and loading the recognition models (Backend/server.js:17-75). This is network and file I/O.
- Image decoding with `canvas.loadImage` and the detection and descriptor networks (Backend/server.js:88-93, 117-120). These are foreign calls. Detection is the deterministic parameter `detect`, and the uploaded image's descriptors are the parameter `queries`.
- The arithmetic of `faceapi.euclideanDistance` over float descriptors (Backend/server.js:125). This is floating-point library code. The distance is the uninterpreted parameter `dist`, compared with the real number 0.6.
- Removing the uploaded file and the catch-all 500 reply (Backend/server.js:137-140, 147-150). This covers exceptions thrown by image loading, and the `readdirSync` failure when `known_faces` exists but is not a directory (Backend/server.js:101, 105). `Directory` has only `Missing` and `Listing`, so the model cannot express that case. This is I/O and exception plumbing.
- Concurrent requests and the asynchronous `await` points. Each request is modelled as one sequential run.
- The React page in frontend/src/app.js is not part of this model. It only posts the image and shows the `result` text.
